/**
  The `Tagger` object: its four count dictionaries are fields that the
  ingestion and folding methods update in place, and each method is proved
  against the value-level functions of `CountModel`, `RareWords` and
  `Tagging`.
 */
module GeneTagger {
  import opened Wrappers
  import opened Text
  import opened Sums
  import opened CountModel
  import opened RareWords
  import opened Tagging

  /**
    The counting idiom the tagger uses throughout: a missing key is first set
    to 0, then the amount is added to it.
   */
  method Increment(m: map<string, nat>, key: string, amount: nat) returns (r: map<string, nat>)
    ensures r == Bump(m, key, amount)
  {
    r := m;
    if key !in r {
      r := r[key := 0];
    }
    r := r[key := r[key] + amount];
  }

  /**
    The tag loop of `flag_rare_words` for one rare word: every emission row
    holding the word adds its count to the row's `rareKeyword` entry, and
    the other rows are unchanged.
   */
  method FoldEmissions(rows: map<string, map<string, nat>>, word: string, rareKeyword: string)
    returns (r: map<string, map<string, nat>>)
    ensures r.Keys == rows.Keys
    ensures forall t :: t in rows ==> r[t] == FoldWord(rows[t], word, rareKeyword)
  {
    r := rows;
    var tags := rows.Keys;
    while tags != {}
      invariant tags <= rows.Keys
      invariant r.Keys == rows.Keys
      invariant forall t :: t in rows ==>
        r[t] == (if t in tags then rows[t] else FoldWord(rows[t], word, rareKeyword))
      decreases |tags|
    {
      var tag :| tag in tags;
      tags := tags - {tag};
      if word in r[tag] {
        var emitCount := r[tag][word];
        var row := Increment(r[tag], rareKeyword, emitCount);
        r := r[tag := row];
      }
    }
  }

  /**
    The word loop of `flag_rare_words` on the word table and the emission
    rows: for a snapshot of the words, each word seen fewer than
    `RareThreshold` times has its counts added to `_RARE_`, in the word table
    and in every emission row holding it.
   */
  method FoldTables(words0: map<string, nat>, rows0: map<string, map<string, nat>>)
    returns (words: map<string, nat>, rows: map<string, map<string, nat>>)
    requires RareKey !in RareSet(words0)
    ensures words == FoldInto(words0, RareSet(words0), RareKey)
    ensures rows.Keys == rows0.Keys
    ensures forall t :: t in rows0 ==> rows[t] == FoldInto(rows0[t], RareSet(words0), RareKey)
  {
    ghost var rareWords := RareSet(words0);
    ghost var folded: set<string> := {};
    words, rows := words0, rows0;
    var snapshot := words0.Keys;
    while snapshot != {}
      invariant snapshot <= words0.Keys
      invariant folded <= rareWords
      invariant forall w :: w in rareWords ==> (w in folded <==> w !in snapshot)
      invariant words == FoldInto(words0, folded, RareKey)
      invariant rows.Keys == rows0.Keys
      invariant forall t :: t in rows0 ==> rows[t] == FoldInto(rows0[t], folded, RareKey)
      decreases |snapshot|
    {
      var word :| word in snapshot;
      snapshot := snapshot - {word};
      if words[word] < RareThreshold {
        assert word in rareWords && word != RareKey;
        words, rows := FoldRareWord(words0, rows0, folded, words, rows, word);
        folded := folded + {word};
      } else {
        assert word !in rareWords;
      }
    }
    assert folded == rareWords;
  }

  /**
    One rare word of the word loop of `flag_rare_words`: its count is added
    to `_RARE_`'s word count, and its emission counts to the `_RARE_` entries
    of the rows holding it.
   */
  method FoldRareWord(ghost words0: map<string, nat>, ghost rows0: map<string, map<string, nat>>, ghost folded: set<string>,
                      words: map<string, nat>, rows: map<string, map<string, nat>>, word: string)
    returns (words': map<string, nat>, rows': map<string, map<string, nat>>)
    requires word in words0 && word !in folded && word != RareKey && RareKey !in folded
    requires words == FoldInto(words0, folded, RareKey)
    requires rows.Keys == rows0.Keys
    requires forall t :: t in rows0 ==> rows[t] == FoldInto(rows0[t], folded, RareKey)
    ensures words' == FoldInto(words0, folded + {word}, RareKey)
    ensures rows'.Keys == rows0.Keys
    ensures forall t :: t in rows0 ==> rows'[t] == FoldInto(rows0[t], folded + {word}, RareKey)
  {
    var rareKeyword := RareKeyword(word);
    words' := Increment(words, rareKeyword, words[word]);
    FoldIntoStep(words0, folded, word, RareKey);
    rows' := FoldEmissions(rows, word, rareKeyword);
    FoldRowsStep(rows0, rows, rows', folded, word, RareKey);
  }

  class Tagger {
    var trainedTagCounts: map<string, nat>
    var trainedWordCounts: map<string, nat>
    var emissionCounts: map<string, map<string, nat>>
    var ngrams: map<string, nat>
    /** The order in which `emissionCounts` is iterated: its keys, oldest first. */
    var tagOrder: seq<string>

    /** The tables as a value. */
    function Model(): Tables
      reads this
    {
      Tables(trainedTagCounts, trainedWordCounts, emissionCounts, ngrams, tagOrder)
    }

    ghost predicate Valid()
      reads this
    {
      WellFormed(Model())
    }

    constructor ()
      ensures Valid() && Model() == Empty
      ensures Consistent(Model()) && SpaceFreeTags(Model())
    {
      trainedTagCounts := map[];
      trainedWordCounts := map[];
      emissionCounts := map[];
      ngrams := map[];
      tagOrder := [];
    }

    /**
      `process_wordtag(row)`: adds the record's count to the tag total, the
      emission count and the word total, each starting at 0. A row Python
      rejects changes nothing and returns false.
     */
    method ProcessWordTag(row: seq<string>) returns (ok: bool)
      requires Valid()
      modifies this
      ensures Valid()
      ensures ok == ParseWordTag(row).Some?
      ensures ok ==> var (n, tag, word) := ParseWordTag(row).value; Model() == AddWordTag(old(Model()), n, tag, word)
      ensures !ok ==> Model() == old(Model())
      ensures old(Consistent(Model())) ==> Consistent(Model())
    {
      var parsed := ParseWordTag(row);
      if parsed.None? {
        return false;
      }
      var (count, tag, word) := parsed.value;
      ghost var before := Model();
      AddRecord(count, tag, word);
      ok := true;
      AddWordTagWellFormed(before, count, tag, word);
      if Consistent(before) {
        AddWordTagConsistent(before, count, tag, word);
      }
    }

    /**
      The table updates of `process_wordtag` for one parsed record. A tag
      without a total starts a new, empty emission row, which is then
      updated as one dictionary.
     */
    method AddRecord(count: nat, tag: string, word: string)
      requires tag in trainedTagCounts ==> tag in emissionCounts
      modifies this
      ensures Model() == AddWordTag(old(Model()), count, tag, word)
    {
      var emissionRow: map<string, nat> := map[];
      var order := tagOrder;
      if tag in trainedTagCounts {
        emissionRow := emissionCounts[tag];
      } else if tag !in emissionCounts {
        order := order + [tag];
      }
      emissionRow := Increment(emissionRow, word, count);
      var tagCounts := Increment(trainedTagCounts, tag, count);
      var wordCounts := Increment(trainedWordCounts, word, count);
      trainedTagCounts, trainedWordCounts, tagOrder := tagCounts, wordCounts, order;
      emissionCounts := emissionCounts[tag := emissionRow];
    }

    /**
      `process_ngram(row)`: adds the record's count under its joined tag
      sequence, starting at 0; nothing else changes. A row Python rejects
      changes nothing and returns false.
     */
    method ProcessNgram(row: seq<string>) returns (ok: bool)
      requires Valid()
      modifies this
      ensures Valid()
      ensures ok == ParseNgram(row).Some?
      ensures ok ==> var (n, key) := ParseNgram(row).value; Model() == AddNgram(old(Model()), n, key)
      ensures !ok ==> Model() == old(Model())
    {
      var parsed := ParseNgram(row);
      if parsed.None? {
        return false;
      }
      var (count, sequence) := parsed.value;
      ngrams := Increment(ngrams, sequence, count);
      ok := true;
    }

    /**
      The body of the line loop of `read_tag_count_file`: the line is split
      at spaces and dispatched on its second field, a word-tag count or an
      n-gram count; any other line is skipped. False where Python raises.
     */
    method ProcessLine(line: string) returns (ok: bool)
      requires Valid()
      modifies this
      ensures Valid()
      ensures ok == !ParseCountLine(line).BadLine?
      ensures ok ==> Model() == ApplyLine(old(Model()), ParseCountLine(line))
      ensures !ok ==> Model() == old(Model())
    {
      var row := Split(line, ' ');
      assert ParseCountLine(line) == DispatchRow(row);
      ok := true;
      if |row| < 2 {
        ok := false;
      } else if row[1] == "WORDTAG" {
        ok := ProcessWordTag(row);
      } else if Contains(row[1], "GRAM") {
        ok := ProcessNgram(row);
      }
    }

    /**
      The line loop of `read_tag_count_file`. The first line that raises
      stops the loop; its index is returned and earlier lines keep their
      effect.
     */
    method ReadTagCountLines(lines: seq<string>) returns (failedAt: Option<nat>)
      requires Valid()
      modifies this
      ensures Valid()
      ensures Model() == LoadLines(old(Model()), lines).tables
      ensures failedAt == LoadLines(old(Model()), lines).failedAt
    {
      ghost var start := Model();
      ghost var records := ParsedLines(lines);
      var i := 0;
      while i < |lines|
        invariant 0 <= i <= |lines|
        invariant Valid()
        invariant LoadRecords(start, records[..i]) == Loaded(Model(), None)
      {
        assert records[..i + 1][..i] == records[..i];
        var ok := ProcessLine(lines[i]);
        if !ok {
          assert LoadRecords(start, records[..i + 1]) == Loaded(Model(), Some(i));
          LoadRecordsAfterFailure(start, records, i + 1);
          return Some(i);
        }
        assert LoadRecords(start, records[..i + 1]) == Loaded(Model(), None);
        i := i + 1;
      }
      assert records[..i] == records;
      failedAt := None;
    }

    /**
      `flag_rare_words`: for a snapshot of the words, every word seen fewer
      than `RareThreshold` times adds its word count to `_RARE_`'s word count
      and, for every tag emitting it, its emission count to that tag's
      `_RARE_` entry. No entry is removed and no tag total changes.
      `_RARE_` itself must not be a rare word, since its own count is read
      live while it grows.
     */
    method FlagRareWords()
      requires Valid()
      requires RareKey !in RareSet(trainedWordCounts)
      modifies this
      ensures Valid()
      ensures Model() == FoldRare(old(Model()))
    {
      ghost var start := Model();
      FoldAllRare();
      FoldRareWellFormed(start);
    }

    /** The word loop of `flag_rare_words`, run on the two tables it changes. */
    method FoldAllRare()
      requires RareKey !in RareSet(trainedWordCounts)
      modifies this
      ensures Model() == FoldRare(old(Model()))
    {
      ghost var start := Model();
      var words, rows := FoldTables(trainedWordCounts, emissionCounts);
      trainedWordCounts, emissionCounts := words, rows;
      assert emissionCounts == FoldRare(start).emissions;
    }

    /**
      `get_tag(word)`: the tag with the highest emission probability for the
      resolved word, the first such tag in iteration order, or no tag with
      probability 0 when no tag emits it.
     */
    method GetTag(word: string) returns (tag: Option<string>, prob: real)
      requires Valid()
      requires CanScore(Model(), word)
      ensures Choice(tag, prob) == GetTagSpec(Model(), word)
    {
      var resolved := word;
      if word !in trainedWordCounts || trainedWordCounts[word] < RareThreshold {
        resolved := RareKeyword(word);
      }
      var c := Model();
      assert resolved == Resolve(c, word);
      assert forall i :: 0 <= i < |tagOrder| ==> Scorable(c, resolved, tagOrder[i]);
      tag, prob := None, 0.0;
      for i := 0 to |tagOrder|
        invariant Choice(tag, prob) == Best(c, resolved, tagOrder[..i])
      {
        assert tagOrder[..i + 1][..i] == tagOrder[..i];
        var p := EmissionProb(c, resolved, tagOrder[i]);
        if p > prob {
          prob := p;
          tag := Some(tagOrder[i]);
        }
      }
      assert tagOrder[..|tagOrder|] == tagOrder;
    }

    /**
      The body of the line loop of `tag_file` for one line: a blank line is
      written as a newline, a non-blank line as its word and tag; `None`
      where Python raises, because the word cannot be scored or gets no tag.
     */
    method TagLine(line: string) returns (out: Option<string>)
      requires Valid()
      ensures out == LineOutput(Model(), line)
    {
      var word := Strip(line);
      if word == "" {
        return Some("\n");
      }
      if !CanScore(Model(), word) {
        return None;
      }
      var tag, maxProb := GetTag(word);
      if tag.None? {
        return None;
      }
      out := Some(word + " " + tag.value + "\n");
    }

    /**
      The line loop of `tag_file`: one output line per input line until a
      line raises; the index of that line is returned.
     */
    method TagLines(lines: seq<string>) returns (output: seq<string>, failedAt: Option<nat>)
      requires Valid()
      ensures Tagged(output, failedAt) == TagOutput(Model(), lines)
    {
      ghost var results := LineOutputs(Model(), lines);
      output := [];
      var i := 0;
      while i < |lines|
        invariant 0 <= i <= |lines|
        invariant Written(results[..i]) == Tagged(output, None)
      {
        var out := TagLine(lines[i]);
        assert out == results[i];
        WrittenStep(results, i);
        if out.None? {
          WrittenAfterFailure(results, i + 1);
          return output, Some(i);
        }
        output := output + [out.value];
        i := i + 1;
      }
      assert results[..i] == results;
      failedAt := None;
    }
  }
}
