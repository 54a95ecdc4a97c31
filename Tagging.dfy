/**
  Choosing a word's tag (`get_tag`) and shaping the output line for one input
  line (`tag_file`), as functions of the trained tables.
 */
module Tagging {
  import opened Wrappers
  import opened Text
  import opened CountModel
  import opened RareWords

  /** The result of `get_tag`: the chosen tag, if any, and its probability. */
  datatype Choice = Choice(tag: Option<string>, prob: real)

  /**
    The scan of `get_tag` over `tags` for an already resolved word: start
    with no tag and probability 0, and take a tag only when its emission
    probability is strictly greater than the best so far.
   */
  function Best(c: Tables, word: string, tags: seq<string>): Choice
    requires forall i :: 0 <= i < |tags| ==> Scorable(c, word, tags[i])
    decreases |tags|
  {
    if |tags| == 0 then Choice(None, 0.0)
    else
      var n := |tags| - 1;
      assert forall i :: 0 <= i < n ==> tags[..n][i] == tags[i];
      var prev := Best(c, word, tags[..n]);
      var p := EmissionProb(c, word, tags[n]);
      if p > prev.prob then Choice(Some(tags[n]), p) else prev
  }

  /**
    The scan finds the first maximum: no tag scores higher than the returned
    probability; a returned tag scores exactly that, positively, and strictly
    more than every tag before its first position; and no tag is returned,
    with probability 0, exactly when every tag scores 0.
   */
  lemma {:induction false} BestIsFirstMaximum(c: Tables, word: string, tags: seq<string>)
    requires forall i :: 0 <= i < |tags| ==> Scorable(c, word, tags[i])
    ensures var r := Best(c, word, tags);
      && r.prob >= 0.0
      && (forall i :: 0 <= i < |tags| ==> EmissionProb(c, word, tags[i]) <= r.prob)
      && (r.tag.None? <==> r.prob == 0.0)
      && (r.tag.None? <==> forall i :: 0 <= i < |tags| ==> EmissionProb(c, word, tags[i]) == 0.0)
      && (r.tag.Some? ==> exists i :: 0 <= i < |tags| && tags[i] == r.tag.value && FirstMaximumAt(c, word, tags, i, r.prob))
    decreases |tags|
  {
    if |tags| > 0 {
      var n := |tags| - 1;
      var prefix := tags[..n];
      assert forall i :: 0 <= i < n ==> prefix[i] == tags[i];
      BestIsFirstMaximum(c, word, prefix);
      var prev := Best(c, word, prefix);
      var p := EmissionProb(c, word, tags[n]);
      if p > prev.prob {
        assert FirstMaximumAt(c, word, tags, n, p);
      } else if prev.tag.Some? {
        var i :| 0 <= i < n && prefix[i] == prev.tag.value && FirstMaximumAt(c, word, prefix, i, prev.prob);
        assert FirstMaximumAt(c, word, tags, i, prev.prob);
      }
    }
  }

  /** Position `i` holds probability `p`, positive, and every earlier position scores less. */
  ghost predicate FirstMaximumAt(c: Tables, word: string, tags: seq<string>, i: nat, p: real)
    requires forall k :: 0 <= k < |tags| ==> Scorable(c, word, tags[k])
    requires i < |tags|
  {
    && EmissionProb(c, word, tags[i]) == p
    && p > 0.0
    && forall j :: 0 <= j < i ==> EmissionProb(c, word, tags[j]) < p
  }

  /** What `get_tag(word)` needs in order not to raise: every tag can score the resolved word. */
  predicate CanScore(c: Tables, word: string) {
    forall t :: t in c.emissions ==> Scorable(c, Resolve(c, word), t)
  }

  /** `get_tag(word)`: resolve the word, then scan the tags in iteration order. */
  function GetTagSpec(c: Tables, word: string): Choice
    requires WellFormed(c) && CanScore(c, word)
  {
    assert forall i :: 0 <= i < |c.tagOrder| ==> c.tagOrder[i] in c.emissions;
    Best(c, Resolve(c, word), c.tagOrder)
  }

  /**
    `get_tag` picks a most probable tag: no tag of the tables scores the
    resolved word higher; a returned tag is one of them, scores exactly the
    returned probability, positively, and comes first among the tags that
    do; and no tag, with probability 0, is returned exactly when no tag
    emits the resolved word.
   */
  lemma GetTagSpecMaximum(c: Tables, word: string)
    requires WellFormed(c) && CanScore(c, word)
    ensures var r := GetTagSpec(c, word); var w := Resolve(c, word);
      && (forall t :: t in c.emissions ==> EmissionProb(c, w, t) <= r.prob)
      && (r.tag.Some? ==> r.tag.value in c.emissions && EmissionProb(c, w, r.tag.value) == r.prob > 0.0)
      && (r.tag.Some? ==> exists i :: 0 <= i < |c.tagOrder| && c.tagOrder[i] == r.tag.value && FirstMaximumAt(c, w, c.tagOrder, i, r.prob))
      && (r.tag.None? <==> r.prob == 0.0)
      && (r.tag.None? <==> forall t :: t in c.emissions ==> EmissionProb(c, w, t) == 0.0)
  {
    var w := Resolve(c, word);
    assert forall i :: 0 <= i < |c.tagOrder| ==> c.tagOrder[i] in c.emissions;
    BestIsFirstMaximum(c, w, c.tagOrder);
    forall t | t in c.emissions ensures EmissionProb(c, w, t) <= GetTagSpec(c, word).prob {
      var i :| 0 <= i < |c.tagOrder| && c.tagOrder[i] == t;
    }
  }

  /**
    The output `tag_file` writes for one input line, given the tag chosen for
    its stripped word: a newline for a blank line, otherwise the word, a
    space, the tag and a newline. `None` where Python raises because no tag
    was chosen (`' '.join([word, None])`).
   */
  function OutputLine(line: string, tag: Option<string>): (r: Option<string>)
    ensures Strip(line) == "" <==> r == Some("\n")
    ensures Strip(line) != "" ==> (r.Some? <==> tag.Some?)
    ensures r.Some? ==> |r.value| > 0 && r.value[|r.value| - 1] == '\n'
  {
    var word := Strip(line);
    if word == "" then Some("\n")
    else if tag.None? then None
    else Some(word + " " + tag.value + "\n")
  }

  /**
    The output of a non-blank line reads back as its word and its tag: drop
    the newline, split at spaces, and the last field is the tag and the
    fields before it join back to the word.
   */
  lemma OutputLineReadBack(line: string, tag: string)
    requires Strip(line) != ""
    requires ' ' !in tag
    ensures var out := OutputLine(line, Some(tag)).value;
      var fields := Split(out[..|out| - 1], ' ');
      && fields[|fields| - 1] == tag
      && Join(fields[..|fields| - 1], ' ') == Strip(line)
  {
    var word := Strip(line);
    var out := OutputLine(line, Some(tag)).value;
    assert out[..|out| - 1] == word + [' '] + tag;
    SplitAppend(word, tag, ' ');
    SplitNoSep(tag, ' ');
    var fields := Split(out[..|out| - 1], ' ');
    assert fields[..|fields| - 1] == Split(word, ' ');
  }

  /**
    The per-line rule of `tag_file` with `get_tag` applied: a blank line is
    written as a blank line and a non-blank line as its word and tag. `None`
    where Python raises: the word cannot be scored (a division by a zero tag
    total) or it gets no tag.
   */
  function LineOutput(c: Tables, line: string): (r: Option<string>)
    requires WellFormed(c)
    ensures r == Some("\n") <==> Strip(line) == ""
    ensures r.None? <==> Strip(line) != "" && (!CanScore(c, Strip(line)) || GetTagSpec(c, Strip(line)).tag.None?)
    ensures r.Some? && Strip(line) != "" ==> r.value == Strip(line) + " " + GetTagSpec(c, Strip(line)).tag.value + "\n"
  {
    var word := Strip(line);
    if word == "" then Some("\n")
    else if !CanScore(c, word) then None
    else OutputLine(line, GetTagSpec(c, word).tag)
  }

  /** What `tag_file` writes for the given input lines, and the index of the line that raised, if one did. */
  datatype Tagged = Tagged(output: seq<string>, failedAt: Option<nat>)

  /**
    How `tag_file` writes a stream of per-line results: each line's output in
    order, until the first line that raises; nothing is written for that
    line or after it.
   */
  function Written(results: seq<Option<string>>): (r: Tagged)
    ensures |r.output| <= |results|
    decreases |results|
  {
    if |results| == 0 then Tagged([], None)
    else
      var n := |results| - 1;
      var prev := Written(results[..n]);
      if prev.failedAt.Some? then prev
      else if results[n].None? then Tagged(prev.output, Some(n))
      else Tagged(prev.output + [results[n].value], None)
  }

  /**
    What is written: the results in order, up to the first line that raised
    if one did, and all of them otherwise.
   */
  lemma {:induction false} WrittenSpec(results: seq<Option<string>>)
    ensures var r := Written(results);
      && (r.failedAt.None? <==> forall i :: 0 <= i < |results| ==> results[i].Some?)
      && (r.failedAt.None? ==> |r.output| == |results|)
      && (r.failedAt.Some? ==>
            && r.failedAt.value < |results|
            && results[r.failedAt.value].None?
            && |r.output| == r.failedAt.value
            && forall i :: 0 <= i < r.failedAt.value ==> results[i].Some?)
      && (forall i :: 0 <= i < |r.output| ==> results[i] == Some(r.output[i]))
    decreases |results|
  {
    if |results| > 0 {
      var n := |results| - 1;
      assert forall i :: 0 <= i < n ==> results[..n][i] == results[i];
      WrittenSpec(results[..n]);
    }
  }

  /** One more line after lines that all succeeded: its output is appended, or it is the line that raised. */
  lemma WrittenStep(results: seq<Option<string>>, n: nat)
    requires n < |results|
    requires Written(results[..n]).failedAt.None?
    ensures Written(results[..n + 1]) ==
      if results[n].None? then Tagged(Written(results[..n]).output, Some(n))
      else Tagged(Written(results[..n]).output + [results[n].value], None)
  {
    assert results[..n + 1][..n] == results[..n];
  }

  /** Once a line has raised, later lines write nothing. */
  lemma {:induction false} WrittenAfterFailure(results: seq<Option<string>>, k: nat)
    requires k <= |results|
    requires Written(results[..k]).failedAt.Some?
    ensures Written(results) == Written(results[..k])
    decreases |results|
  {
    if k < |results| {
      var n := |results| - 1;
      assert results[..n][..k] == results[..k];
      WrittenAfterFailure(results[..n], k);
    } else {
      assert results[..k] == results;
    }
  }

  /** The per-line results of `tag_file` for the given lines. */
  function LineOutputs(c: Tables, lines: seq<string>): (r: seq<Option<string>>)
    requires WellFormed(c)
    ensures |r| == |lines|
    ensures forall i :: 0 <= i < |lines| ==> r[i] == LineOutput(c, lines[i])
  {
    seq(|lines|, i requires 0 <= i < |lines| => LineOutput(c, lines[i]))
  }

  /** `tag_file` on the given lines. */
  function TagOutput(c: Tables, lines: seq<string>): Tagged
    requires WellFormed(c)
  {
    Written(LineOutputs(c, lines))
  }

  /**
    Each written line is the per-line output of the input line at its
    position, and the line that raised, if any, is a non-blank line whose
    word cannot be scored or gets no tag.
   */
  lemma TagOutputLines(c: Tables, lines: seq<string>)
    requires WellFormed(c)
    ensures var r := TagOutput(c, lines);
      && (forall i :: 0 <= i < |r.output| ==> LineOutput(c, lines[i]) == Some(r.output[i]))
      && (r.failedAt.None? ==> |r.output| == |lines|)
      && (r.failedAt.Some? ==> r.failedAt.value < |lines| && |r.output| == r.failedAt.value)
      && (r.failedAt.Some? ==> var w := Strip(lines[r.failedAt.value]);
            w != "" && (!CanScore(c, w) || GetTagSpec(c, w).tag.None?))
  {
    var r := TagOutput(c, lines);
    var results := LineOutputs(c, lines);
    WrittenSpec(results);
    if r.failedAt.Some? {
      assert results[r.failedAt.value].None?;
    }
  }

  /** Sentence boundaries survive tagging: an output line is blank exactly when its input line is. */
  lemma TagOutputKeepsBlankLines(c: Tables, lines: seq<string>)
    requires WellFormed(c)
    ensures var r := TagOutput(c, lines);
      forall i :: 0 <= i < |r.output| ==> (r.output[i] == "\n" <==> Strip(lines[i]) == "")
  {
    TagOutputLines(c, lines);
  }
}
