/**
 * Post-processing of one assistant turn: the full streamed response is split
 * into the model's reasoning block (`<think>…</think>`) and the answer shown
 * to the user, with Python's `in`, `split`, `replace` and `strip`.
 */
module ThinkSplit {
  import opened Wrappers
  import opened PyStrings

  const OpenTag := "<think>"
  const CloseTag := "</think>"

  /** The reasoning shown in its own panel, if any, and the final answer. */
  datatype Split = Split(reasoning: Option<string>, answer: string)

  /**
   * The reasoning block is split off exactly when both tags occur, in either
   * order and case-sensitively; then the answer never holds a closing tag.
   * Otherwise the whole response, not even stripped, is the answer.
   */
  function SplitThinking(full: string): (r: Split)
    ensures r.reasoning.Some? <==> Contains(full, OpenTag) && Contains(full, CloseTag)
    ensures r.reasoning.None? ==> r.answer == full
    ensures r.reasoning.Some? ==> !Contains(r.answer, CloseTag)
  {
    if Contains(full, OpenTag) && Contains(full, CloseTag) then
      var parts := SplitOn(full, CloseTag);
      var thought := Strip(ReplaceAll(parts[0], OpenTag, ""));
      var answer := Strip(parts[1]);
      SubstringKeepsAbsence(parts[1], answer, CloseTag);
      Split(Some(thought), answer)
    else
      Split(None, full)
  }

  /**
   * The split stated by positions: the reasoning is the text before the
   * first closing tag with every opening tag removed, stripped; the answer
   * is the text from there to the second closing tag, or to the end, stripped.
   */
  lemma {:induction false} SplitByIndex(full: string)
    requires Contains(full, OpenTag) && Contains(full, CloseTag)
    ensures var i := IndexOf(full, CloseTag);
      && SplitThinking(full).reasoning == Some(Strip(ReplaceAll(full[..i], OpenTag, "")))
      && SplitThinking(full).answer == Strip(UpToClose(full[i + |CloseTag|..]))
  {
    var i := IndexOf(full, CloseTag);
    var rest := full[i + |CloseTag|..];
    SplitUnfold(full, CloseTag);
    assert SplitOn(full, CloseTag)[1] == SplitOn(rest, CloseTag)[0] == UpToClose(rest);
  }

  /** `s` up to its first closing tag, or all of `s` when it has none. */
  function UpToClose(s: string): string {
    var j := IndexOf(s, CloseTag);
    if j < 0 then s else s[..j]
  }

  /**
   * Whatever follows the second closing tag is dropped: appending text to a
   * response that already holds two closing tags changes neither the
   * reasoning nor the answer.
   */
  lemma {:induction false} TextAfterSecondCloseDropped(full: string, extra: string)
    requires Contains(full, OpenTag) && Contains(full, CloseTag)
    requires Contains(full[IndexOf(full, CloseTag) + |CloseTag|..], CloseTag)
    ensures SplitThinking(full + extra) == SplitThinking(full)
  {
    var i := IndexOf(full, CloseTag);
    AppendAfterSecondClose(full, extra);
    SplitByIndex(full);
    SplitByIndex(full + extra);
  }

  /** What the split reads of `full` is the same in `full + extra`. */
  lemma AppendAfterSecondClose(full: string, extra: string)
    requires Contains(full, OpenTag) && Contains(full, CloseTag)
    requires Contains(full[IndexOf(full, CloseTag) + |CloseTag|..], CloseTag)
    ensures Contains(full + extra, OpenTag) && Contains(full + extra, CloseTag)
    ensures var i := IndexOf(full, CloseTag);
      && IndexOf(full + extra, CloseTag) == i
      && (full + extra)[..i] == full[..i]
      && UpToClose((full + extra)[i + |CloseTag|..]) == UpToClose(full[i + |CloseTag|..])
  {
    var i := IndexOf(full, CloseTag);
    var rest := full[i + |CloseTag|..];
    IndexOfAppend(full, extra, CloseTag);
    IndexOfAppend(full, extra, OpenTag);
    SlicesOfAppend(full, extra, i);
    SlicesOfAppend(full, extra, i + |CloseTag|);
    UpToCloseAppend(rest, extra);
  }

  /** Appending after a closing tag does not change the text up to it. */
  lemma UpToCloseAppend(rest: string, extra: string)
    requires Contains(rest, CloseTag)
    ensures UpToClose(rest + extra) == UpToClose(rest)
  {
    IndexOfAppend(rest, extra, CloseTag);
    SlicesOfAppend(rest, extra, IndexOf(rest, CloseTag));
  }

  /**
   * The first closing tag of `<think>x</think>y` is the one written after
   * `x` when `x` holds none: the closing tag shares no border with itself
   * and its `<` only stands first, so no occurrence can straddle into it.
   */
  lemma {:induction false} FirstCloseAfterReasoning(x: string, y: string)
    requires !Contains(x, CloseTag)
    ensures IndexOf(OpenTag + x + CloseTag + y, CloseTag) == |OpenTag| + |x|
  {
    var full := OpenTag + x + CloseTag + y;
    var p := |OpenTag| + |x|;
    assert full[p..p + |CloseTag|] == CloseTag;
    forall j | 0 <= j < p ensures !OccursAt(full, CloseTag, j) {
      NoCloseBefore(x, y, j);
    }
    IndexOfIs(full, CloseTag, p);
  }

  /** No closing tag of `<think>x</think>y` starts before the one after `x`. */
  lemma NoCloseBefore(x: string, y: string, j: int)
    requires !Contains(x, CloseTag)
    requires 0 <= j < |OpenTag| + |x|
    ensures !OccursAt(OpenTag + x + CloseTag + y, CloseTag, j)
  {
    var full := OpenTag + x + CloseTag + y;
    var p := |OpenTag| + |x|;
    var w := full[j..j + |CloseTag|];
    if j == 0 {
      assert w[1] == full[1] == OpenTag[1] != CloseTag[1];
    } else if j < |OpenTag| {
      assert w[0] == full[j] == OpenTag[j] != CloseTag[0];
    } else if j + |CloseTag| <= p {
      assert w == x[j - |OpenTag|..j - |OpenTag| + |CloseTag|];
      assert !OccursAt(x, CloseTag, j - |OpenTag|);
    } else {
      assert w[p - j] == full[p] == CloseTag[0] != CloseTag[p - j];
    }
  }

  /**
   * Round trip: for a response `<think>x</think>y` whose parts hold no tags
   * of their own, the reasoning is `x` stripped and the answer `y` stripped.
   */
  lemma {:induction false} TaggedRoundTrip(x: string, y: string)
    requires !Contains(x, OpenTag) && !Contains(x, CloseTag) && !Contains(y, CloseTag)
    ensures SplitThinking(OpenTag + x + CloseTag + y) == Split(Some(Strip(x)), Strip(y))
  {
    var full := OpenTag + x + CloseTag + y;
    var front := OpenTag + x;
    FirstCloseAfterReasoning(x, y);
    var i := IndexOf(full, CloseTag);
    assert OccursAt(full, OpenTag, 0) by {
      assert full[..|OpenTag|] == OpenTag;
    }
    assert full[..i] == front;
    assert full[i + |CloseTag|..] == y;
    assert front[|OpenTag|..] == x;
    assert ReplaceAll(front, OpenTag, "") == x by {
      assert front[..|OpenTag|] == OpenTag;
      ReplaceAtFront(front, OpenTag, "");
      ReplaceAbsent(x, OpenTag, "");
    }
    SplitByIndex(full);
  }

  /**
   * The order of the tags does not matter: a response that opens with a
   * closing tag and has an opening tag later still takes the split branch,
   * with an empty reasoning and the answer running to the next closing tag.
   */
  lemma {:induction false} CloseBeforeOpen(y: string)
    requires Contains(y, OpenTag)
    ensures SplitThinking(CloseTag + y) == Split(Some(""), Strip(UpToClose(y)))
  {
    var full := CloseTag + y;
    assert OccursAt(full, CloseTag, 0) by {
      assert full[..|CloseTag|] == CloseTag;
    }
    IndexOfIs(full, CloseTag, 0);
    var k := IndexOf(y, OpenTag);
    assert OccursAt(full, OpenTag, |CloseTag| + k) by {
      assert full[|CloseTag| + k..|CloseTag| + k + |OpenTag|] == y[k..k + |OpenTag|];
    }
    var i := IndexOf(full, CloseTag);
    assert full[..i] == "";
    assert full[i + |CloseTag|..] == y;
    SplitByIndex(full);
  }
}
