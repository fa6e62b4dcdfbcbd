/**
 * my_array.py, `myBlocks`: the list is cut at every 0, each piece is sorted,
 * an empty piece is shown as "X", and the pieces are printed as digit strings
 * separated by single spaces. The function is annotated as returning a list
 * but returns this string, and the string is what is modelled.
 */
module Blocks {
  import opened Wrappers
  import opened Sequences
  import opened Decimal

  /** One entry of `separated_lists`: a sorted run of integers, or the `["X"]` placeholder. */
  datatype Block = Run(values: seq<int>) | X

  /** The integers a block holds (none for the placeholder). */
  function Values(b: Block): seq<int>
  {
    match b
    case Run(values) => values
    case X => []
  }

  /** The entry appended for one piece: its sorted copy, or X when the piece is empty. */
  function MakeBlock(piece: seq<int>): (b: Block)
    ensures b == X <==> piece == []
    ensures b.Run? ==> b.values != [] && Sorted(b.values) && multiset(b.values) == multiset(piece)
  {
    if piece != [] then Run(Sort(piece)) else X
  }

  /** The block of each piece, in order. */
  function MakeBlocks(pieces: seq<seq<int>>): (blocks: seq<Block>)
    ensures |blocks| == |pieces| && forall i :: 0 <= i < |pieces| ==> blocks[i] == MakeBlock(pieces[i])
  {
    if pieces == [] then [] else [MakeBlock(pieces[0])] + MakeBlocks(pieces[1..])
  }

  /** The blocks of `arr`: one per piece between zeros, in order. */
  function BlocksOf(arr: seq<int>): seq<Block>
  {
    MakeBlocks(Split(arr, 0))
  }

  function ValuesOf(blocks: seq<Block>): seq<seq<int>>
  {
    seq(|blocks|, i requires 0 <= i < |blocks| => Values(blocks[i]))
  }

  /** `"".join(map(str, lst))` for one block. */
  function BlockText(b: Block): (t: string)
    ensures ' ' !in t
    ensures b.X? || b.values != [] ==> t != []
  {
    match b
    case X => "X"
    case Run(values) =>
      var texts := seq(|values|, i requires 0 <= i < |values| => IntToString(values[i]));
      assert SepFree(texts, ' ') by {
        forall i | 0 <= i < |texts| ensures ' ' !in texts[i] {
          var t := IntToString(values[i]);
          assert forall k :: 0 <= k < |t| ==> t[k] != ' ';
        }
      }
      ConcatSepFree(texts, ' ');
      assert values != [] ==> Concat(texts) == texts[0] + Concat(texts[1..]);
      Concat(texts)
  }

  function Texts(blocks: seq<Block>): seq<string>
  {
    seq(|blocks|, i requires 0 <= i < |blocks| => BlockText(blocks[i]))
  }

  /** Line 27: the block texts joined by single spaces. */
  function Render(blocks: seq<Block>): string
  {
    Join(Texts(blocks), ' ')
  }

  /** A round that finds a zero at `i` (lines 18, 23, 25): the block of the piece
      before it is appended and the list is cut just after it, which keeps the
      loop's account of blocks done plus blocks still to come. */
  lemma RoundWithZero(arr: seq<int>, separated: seq<Block>, rest: seq<int>, consumed: nat, i: nat)
    requires consumed <= |arr| && rest == arr[consumed..]
    requires separated + BlocksOf(rest) == BlocksOf(arr)
    requires i < |rest| && rest[i] == 0 && 0 !in rest[..i]
    ensures consumed + i + 1 <= |arr| && rest[i + 1..] == arr[consumed + i + 1..]
    ensures (separated + [MakeBlock(rest[..i])]) + BlocksOf(rest[i + 1..]) == BlocksOf(arr)
    ensures multiset(rest[i + 1..])[0] == multiset(rest)[0] - 1
  {
    SplitAt(rest, 0, i);
    assert rest == rest[..i] + [0] + rest[i + 1..];
  }

  /** The round that finds no zero (lines 19-21, 23): the whole remaining list is the last block. */
  lemma LastRound(arr: seq<int>, separated: seq<Block>, rest: seq<int>)
    requires separated + BlocksOf(rest) == BlocksOf(arr)
    requires 0 !in rest
    ensures separated + [MakeBlock(rest)] == BlocksOf(arr)
  {
    assert Split(rest, 0) == [rest];
  }

  /** myBlocks, lines 13-27: the loop runs once per zero plus once more, and
      each round drops the piece it handled together with the zero after it. */
  method MyBlocks(arr: seq<int>) returns (out: string)
    ensures out == Render(BlocksOf(arr))
    ensures |Split(out, ' ')| == multiset(arr)[0] + 1
  {
    var separated: seq<Block> := [];
    var rest := arr;
    ghost var consumed: nat := 0;
    var rounds := multiset(arr)[0] + 1;
    for k := 0 to rounds
      invariant k < rounds ==> consumed <= |arr| && rest == arr[consumed..]
      invariant k < rounds ==> multiset(rest)[0] == rounds - 1 - k
      invariant k < rounds ==> separated + BlocksOf(rest) == BlocksOf(arr)
      invariant k == rounds ==> separated == BlocksOf(arr)
    {
      var zeroIndex: nat;
      match Find(rest, 0) {
        case Some(i) =>
          zeroIndex := i;
          RoundWithZero(arr, separated, rest, consumed, i);
          assert rest[i] in multiset(rest);
        case None =>
          zeroIndex := |rest|;
          assert rest[..zeroIndex] == rest;
          LastRound(arr, separated, rest);
      }
      separated := separated + [MakeBlock(rest[..zeroIndex])];
      // Each round drops exactly zeroIndex + 1 elements from the front.
      rest := if zeroIndex + 1 <= |rest| then rest[zeroIndex + 1..] else [];
      consumed := consumed + zeroIndex + 1;
    }
    out := Render(separated);
    RenderedPieces(arr);
  }

  /** There is one block more than there are zeros. */
  lemma BlockCount(arr: seq<int>)
    ensures |BlocksOf(arr)| == multiset(arr)[0] + 1
  {
    SplitCount(arr, 0);
  }

  /** The input is the pieces joined by zeros, no piece holds a zero, and each
      block is the sorted piece at its position, or X exactly when that piece is empty. */
  lemma BlocksAreSortedPieces(arr: seq<int>)
    ensures var pieces := Split(arr, 0);
      && Join(pieces, 0) == arr
      && |BlocksOf(arr)| == |pieces|
      && forall i :: 0 <= i < |pieces| ==>
           && 0 !in pieces[i]
           && (BlocksOf(arr)[i] == X <==> pieces[i] == [])
           && (BlocksOf(arr)[i].Run? ==>
                 Sorted(BlocksOf(arr)[i].values) && multiset(BlocksOf(arr)[i].values) == multiset(pieces[i]))
  {
    JoinSplit(arr, 0);
    SplitSepFree(arr, 0);
  }

  /** No block holds a zero, and every run is sorted and non-empty. */
  lemma BlocksHaveNoZero(arr: seq<int>)
    ensures forall b :: b in BlocksOf(arr) ==> 0 !in Values(b)
    ensures forall b :: b in BlocksOf(arr) && b.Run? ==> b.values != [] && Sorted(b.values)
  {
    var pieces := Split(arr, 0);
    SplitSepFree(arr, 0);
    forall b | b in BlocksOf(arr) ensures 0 !in Values(b) {
      var i :| 0 <= i < |pieces| && BlocksOf(arr)[i] == b;
      assert 0 !in pieces[i];
      if b.Run? {
        assert multiset(b.values)[0] == multiset(pieces[i])[0] == 0;
      }
    }
  }

  /** The blocks hold exactly the non-zero elements of the input, with multiplicity. */
  lemma ConservesNonZero(arr: seq<int>)
    ensures multiset(Concat(ValuesOf(BlocksOf(arr)))) == multiset(arr)[0 := 0]
  {
    var pieces := Split(arr, 0);
    SplitSepFree(arr, 0);
    JoinSplit(arr, 0);
    JoinMultiset(pieces, 0);
    ConcatMultiset(ValuesOf(BlocksOf(arr)), pieces);
  }

  /** The output splits on ' ' into exactly the block texts, one per block. */
  lemma RenderedPieces(arr: seq<int>)
    ensures Split(Render(BlocksOf(arr)), ' ') == Texts(BlocksOf(arr))
    ensures |Split(Render(BlocksOf(arr)), ' ')| == multiset(arr)[0] + 1
  {
    var texts := Texts(BlocksOf(arr));
    assert SepFree(texts, ' ');
    BlockCount(arr);
    SplitJoin(texts, ' ');
  }

  /** The output has no leading or trailing space and never two spaces in a row. */
  lemma RenderSpacing(arr: seq<int>)
    ensures var out := Render(BlocksOf(arr));
      && out != [] && out[0] != ' ' && out[|out| - 1] != ' '
      && forall k :: 0 <= k < |out| - 1 && out[k] == ' ' ==> out[k + 1] != ' '
  {
    var blocks := BlocksOf(arr);
    var texts := Texts(blocks);
    BlocksHaveNoZero(arr);
    assert forall i :: 0 <= i < |texts| ==> texts[i] != [] by {
      forall i | 0 <= i < |texts| ensures texts[i] != [] {
        assert blocks[i] in blocks;
      }
    }
    JoinSpacing(texts, ' ');
  }
}
