/** The caption: the gesture vocabulary, the append-unless-repeated rule,
    and the rendering of the caption list as one line of text. */
module Caption {

  import opened Slices

  /** The classifier's label vocabulary, indexed by output position. */
  const Actions: seq<string> := ["hello", "thanks", "iloveyou", "how", "today", "cooking",
                                 "you", "weather", "what", "name", "fine", "your"]
  const NumActions: nat := 12

  /** At most this many labels are shown. */
  const CaptionLimit: nat := 5

  predicate NoAdjacentDuplicates(s: seq<string>)
  {
    forall i | 0 < i < |s| :: s[i - 1] != s[i]
  }

  /** Appending a confirmed label: it is added unless it equals the current
      last entry; on an empty caption it is always added. */
  function Emit(sentence: seq<string>, candidate: string): (r: seq<string>)
    ensures r == sentence || r == sentence + [candidate]
    ensures r == sentence <==> |sentence| > 0 && sentence[|sentence| - 1] == candidate
    ensures r[|r| - 1] == candidate
    ensures NoAdjacentDuplicates(sentence) ==> NoAdjacentDuplicates(r)
  {
    if |sentence| > 0 then
      if candidate != sentence[|sentence| - 1] then sentence + [candidate] else sentence
    else
      sentence + [candidate]
  }

  /** Emitting the same label twice in a row is the same as emitting it once. */
  lemma EmitIdempotent(sentence: seq<string>, candidate: string)
    ensures Emit(Emit(sentence, candidate), candidate) == Emit(sentence, candidate)
  {
  }

  /** Every suffix of a caption without adjacent repeats has none either, so
      truncation keeps the property. */
  lemma LastNoAdjacentDuplicates(s: seq<string>, n: nat)
    requires n > 0 && NoAdjacentDuplicates(s)
    ensures NoAdjacentDuplicates(Last(s, n))
  {
    var r := Last(s, n);
    forall i | 0 < i < |r| ensures r[i - 1] != r[i] {
      assert r[i - 1] == s[|s| - |r| + i - 1] && r[i] == s[|s| - |r| + i];
    }
  }

  /** Reference definition of "the confirmed labels with each run of equal
      labels merged into one", written independently of Emit. */
  function Collapse(ls: seq<string>): (r: seq<string>)
  {
    if |ls| <= 1 then ls
    else if ls[0] == ls[1] then Collapse(ls[1..])
    else [ls[0]] + Collapse(ls[1..])
  }

  lemma {:induction false} CollapseFirst(ls: seq<string>)
    requires |ls| > 0
    ensures |Collapse(ls)| > 0 && Collapse(ls)[0] == ls[0]
  {
    if |ls| > 1 && ls[0] == ls[1] {
      CollapseFirst(ls[1..]);
    }
  }

  /** Emit is exactly one step of Collapse taken at the end of the stream. */
  lemma {:induction false} CollapseSnoc(ls: seq<string>, candidate: string)
    ensures Collapse(ls + [candidate]) == Emit(Collapse(ls), candidate)
  {
    if |ls| == 0 {
      assert ls + [candidate] == [candidate];
    } else if |ls| == 1 {
      assert (ls + [candidate])[1..] == [candidate];
    } else {
      assert (ls + [candidate])[1..] == ls[1..] + [candidate];
      CollapseSnoc(ls[1..], candidate);
      CollapseFirst(ls[1..]);
    }
  }

  /** Keeping only the last `CaptionLimit` entries before emitting changes
      nothing once the result is truncated again. */
  lemma EmitLast(c: seq<string>, candidate: string)
    ensures Last(Emit(Last(c, CaptionLimit), candidate), CaptionLimit) == Last(Emit(c, candidate), CaptionLimit)
  {
    if |c| > 0 && c[|c| - 1] == candidate {
      LastLast(c, CaptionLimit);
    } else {
      LastAppend(c, candidate, CaptionLimit);
    }
  }

  /** On a caption of at most five labels, emitting and truncating changes
      the caption exactly when the label is added; the label then goes at the
      end, and a full caption loses its oldest entry. */
  lemma EmitTruncated(sentence: seq<string>, candidate: string)
    requires |sentence| <= CaptionLimit
    ensures Last(sentence, CaptionLimit) == sentence
    ensures var e := Emit(sentence, candidate);
      && (Last(e, CaptionLimit) != sentence <==> e != sentence)
      && (e != sentence ==>
            Last(e, CaptionLimit) == (if |sentence| < CaptionLimit then sentence else sentence[1..]) + [candidate])
  {
    var n := |sentence|;
    var e := sentence + [candidate];
    if n == CaptionLimit {
      assert Last(e, CaptionLimit) == e[1..] == sentence[1..] + [candidate];
      assert e[1..][n - 1] == candidate;
    } else {
      assert Last(e, CaptionLimit) == e;
    }
  }

  /** `' '.join(sentence)`. */
  function Render(sentence: seq<string>): (r: string)
    ensures (r == []) == (sentence == [] || sentence == [[]])
  {
    if sentence == [] then ""
    else if |sentence| == 1 then sentence[0]
    else sentence[0] + " " + Render(sentence[1..])
  }

  /** Splits text at each space, collecting the current word in `word`. */
  function Words(t: string, word: string): (r: seq<string>)
  {
    if t == [] then [word]
    else if t[0] == ' ' then [word] + Words(t[1..], [])
    else Words(t[1..], word + [t[0]])
  }

  /** The inverse of Render: the space-separated words of a caption line. */
  function Split(t: string): (r: seq<string>)
  {
    if t == [] then [] else Words(t, [])
  }

  predicate IsWord(w: string)
  {
    |w| > 0 && ' ' !in w
  }

  lemma {:induction false} WordsSkip(w: string, rest: string, word: string)
    requires ' ' !in w
    ensures Words(w + rest, word) == Words(rest, word + w)
    decreases |w|
  {
    if w == [] {
      assert w + rest == rest && word + w == word;
    } else {
      assert (w + rest)[0] == w[0] && (w + rest)[1..] == w[1..] + rest;
      WordsSkip(w[1..], rest, word + [w[0]]);
      assert word + [w[0]] + w[1..] == word + w;
    }
  }

  lemma {:induction false} WordsRender(s: seq<string>)
    requires |s| > 0 && forall i | 0 <= i < |s| :: IsWord(s[i])
    ensures Words(Render(s), []) == s
  {
    if |s| == 1 {
      WordsSkip(s[0], [], []);
      assert s[0] + [] == s[0] && [] + s[0] == s[0];
    } else {
      var tail := Render(s[1..]);
      assert Render(s) == s[0] + (" " + tail);
      WordsSkip(s[0], " " + tail, []);
      assert [] + s[0] == s[0];
      assert (" " + tail)[1..] == tail;
      WordsRender(s[1..]);
    }
  }

  /** Rendering loses nothing when every label is a non-empty word without
      spaces: splitting the caption line at spaces gives the list back. */
  lemma RenderRoundTrip(s: seq<string>)
    requires forall i | 0 <= i < |s| :: IsWord(s[i])
    ensures Split(Render(s)) == s
  {
    if |s| > 0 {
      WordsRender(s);
      assert |Render(s)| >= |s[0]| > 0;
    }
  }

  /** Every label of the vocabulary is such a word. */
  lemma ActionsAreWords()
    ensures |Actions| == NumActions
    ensures forall i | 0 <= i < |Actions| :: IsWord(Actions[i])
  {
  }

}
