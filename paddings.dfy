/** The padding stages as values: the lines `append_paddings_after` and
    `append_paddings_before` write, and how many lines and bytes they are. */
module Paddings {
  import opened Lines

  /** `check_underscore(word, pos)`: the character at Python index `pos`
      (negative counts from the end) is an underscore. */
  predicate CheckUnderscore(word: string, pos: int)
    requires -|word| <= pos < |word|
  {
    word[if pos < 0 then |word| + pos else pos] == '_'
  }

  predicate NonEmpty(pads: seq<string>)
  {
    forall j :: 0 <= j < |pads| ==> |pads[j]| > 0
  }

  /** For one word: each token behind it, and behind an underscore unless the
      token already starts with one. */
  function WordAfter(w: string, pads: seq<string>): seq<string>
    requires NonEmpty(pads)
  {
    if pads == [] then []
    else
      var v := pads[|pads| - 1];
      WordAfter(w, pads[..|pads| - 1]) + [w + v] + (if !CheckUnderscore(v, 0) then [w + "_" + v] else [])
  }

  /** For one word: each token in front of it, and in front of an underscore
      unless the token already ends with one. */
  function WordBefore(w: string, pads: seq<string>): seq<string>
    requires NonEmpty(pads)
  {
    if pads == [] then []
    else
      var v := pads[|pads| - 1];
      WordBefore(w, pads[..|pads| - 1]) + [v + w] + (if !CheckUnderscore(v, -1) then [v + "_" + w] else [])
  }

  function PadAfter(ws: seq<string>, pads: seq<string>): seq<string>
    requires NonEmpty(pads)
  {
    PerWordLines(ws, w => WordAfter(w, pads))
  }

  function PadBefore(ws: seq<string>, pads: seq<string>): seq<string>
    requires NonEmpty(pads)
  {
    PerWordLines(ws, w => WordBefore(w, pads))
  }

  /** Bytes the tokens add per word when both forms are written: each token
      twice and one underscore. */
  function PadsExtra(pads: seq<string>): nat
  {
    if pads == [] then 0 else PadsExtra(pads[..|pads| - 1]) + 2 * |pads[|pads| - 1]| + 1
  }

  predicate NoLeadingUnderscore(pads: seq<string>)
  {
    forall j :: 0 <= j < |pads| ==> |pads[j]| > 0 && pads[j][0] != '_'
  }

  predicate NoTrailingUnderscore(pads: seq<string>)
  {
    forall j :: 0 <= j < |pads| ==> |pads[j]| > 0 && pads[j][|pads[j]| - 1] != '_'
  }

  lemma {:induction false} WordAfterMeasure(w: string, pads: seq<string>)
    requires NoLeadingUnderscore(pads)
    ensures |WordAfter(w, pads)| == 2 * |pads|
    ensures SizeOf(WordAfter(w, pads)) == (2 * |pads|) * (|w| + 1) + PadsExtra(pads)
  {
    if pads != [] {
      var n := |pads| - 1;
      var v := pads[n];
      WordAfterMeasure(w, pads[..n]);
      assert [w + v] + [w + "_" + v] == [w + v, w + "_" + v];
      SizeOfAppend(WordAfter(w, pads[..n]), [w + v, w + "_" + v]);
      SizeOfPair(w + v, w + "_" + v);
      assert (2 * (n + 1)) * (|w| + 1) == (2 * n) * (|w| + 1) + 2 * (|w| + 1);
    }
  }

  lemma {:induction false} WordBeforeMeasure(w: string, pads: seq<string>)
    requires NoTrailingUnderscore(pads)
    ensures |WordBefore(w, pads)| == 2 * |pads|
    ensures SizeOf(WordBefore(w, pads)) == (2 * |pads|) * (|w| + 1) + PadsExtra(pads)
  {
    if pads != [] {
      var n := |pads| - 1;
      var v := pads[n];
      WordBeforeMeasure(w, pads[..n]);
      assert [v + w] + [v + "_" + w] == [v + w, v + "_" + w];
      SizeOfAppend(WordBefore(w, pads[..n]), [v + w, v + "_" + w]);
      SizeOfPair(v + w, v + "_" + w);
      assert (2 * (n + 1)) * (|w| + 1) == (2 * n) * (|w| + 1) + 2 * (|w| + 1);
    }
  }

  /** With no underscore at the joining end, "after" padding writes two
      lines per word and token; its bytes are 2·|tokens| copies of every word
      with its '\n', plus every token twice and an underscore, per word. */
  lemma PadAfterMeasure(ws: seq<string>, pads: seq<string>)
    requires NoLeadingUnderscore(pads)
    ensures |PadAfter(ws, pads)| == |ws| * (2 * |pads|)
    ensures SizeOf(PadAfter(ws, pads)) == (2 * |pads|) * SizeOf(ws) + |ws| * PadsExtra(pads)
  {
    forall w: string
      ensures |WordAfter(w, pads)| == 2 * |pads|
      ensures SizeOf(WordAfter(w, pads)) == (2 * |pads|) * (|w| + 1) + PadsExtra(pads)
    {
      WordAfterMeasure(w, pads);
    }
    PerWordMeasure(ws, w => WordAfter(w, pads), 2 * |pads|, PadsExtra(pads));
  }

  /** The same for "before" padding, with no token ending in an underscore. */
  lemma PadBeforeMeasure(ws: seq<string>, pads: seq<string>)
    requires NoTrailingUnderscore(pads)
    ensures |PadBefore(ws, pads)| == |ws| * (2 * |pads|)
    ensures SizeOf(PadBefore(ws, pads)) == (2 * |pads|) * SizeOf(ws) + |ws| * PadsExtra(pads)
  {
    forall w: string
      ensures |WordBefore(w, pads)| == 2 * |pads|
      ensures SizeOf(WordBefore(w, pads)) == (2 * |pads|) * (|w| + 1) + PadsExtra(pads)
    {
      WordBeforeMeasure(w, pads);
    }
    PerWordMeasure(ws, w => WordBefore(w, pads), 2 * |pads|, PadsExtra(pads));
  }
}
