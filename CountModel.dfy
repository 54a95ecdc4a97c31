/**
  The tagger's trained tables as a value, and the pure functions that say what
  ingesting one line of a counts file does to them (`read_tag_count_file`,
  `process_wordtag`, `process_ngram`) and what an emission probability is
  (`get_emission_prob`).
 */
module CountModel {
  import opened Wrappers
  import opened Text
  import opened Sums

  /**
    The four tables of a `Tagger`: tag totals, word totals, emission counts
    (tag -> word -> count) and n-gram counts keyed by the space-joined tag
    sequence. `tagOrder` lists the keys of `emissions` in the order the tagger
    iterates over them; new keys are appended.
   */
  datatype Tables = Tables(
    tagCounts: map<string, nat>,
    wordCounts: map<string, nat>,
    emissions: map<string, map<string, nat>>,
    ngrams: map<string, nat>,
    tagOrder: seq<string>)

  /** The tables of a fresh tagger. */
  const Empty := Tables(map[], map[], map[], map[], [])

  /** The model's invariant: every tag has an emission row and `tagOrder` enumerates the rows once each. */
  ghost predicate WellFormed(c: Tables) {
    && c.emissions.Keys == c.tagCounts.Keys
    && (forall t :: t in c.tagOrder <==> t in c.emissions)
    && (forall i, j :: 0 <= i < j < |c.tagOrder| ==> c.tagOrder[i] != c.tagOrder[j])
  }

  /** Count consistency: each tag's total is the sum of its emission counts. */
  ghost predicate Consistent(c: Tables) {
    forall t :: t in c.tagCounts ==> t in c.emissions && MapSum(c.emissions[t]) == c.tagCounts[t]
  }

  /** Every tag key is free of spaces (tags come from fields of a space-split line). */
  ghost predicate SpaceFreeTags(c: Tables) {
    forall t :: t in c.emissions ==> ' ' !in t
  }

  // ------------------------------------------------------------- ingestion

  /** The emission row `process_wordtag` adds to: a new, empty one for a tag not yet totalled. */
  function FreshRow(c: Tables, tag: string): map<string, nat>
    requires tag in c.tagCounts ==> tag in c.emissions
  {
    if tag in c.tagCounts then c.emissions[tag] else map[]
  }

  /**
    The effect of one word-tag record `count WORDTAG tag word`: the count is
    added to the tag's total, to the tag's emission count for the word and to
    the word's total, each starting at 0; a tag seen for the first time gets
    a new, empty emission row, appended to the iteration order unless it
    already had one.
   */
  function AddWordTag(c: Tables, count: nat, tag: string, word: string): Tables
    requires tag in c.tagCounts ==> tag in c.emissions
  {
    var row := FreshRow(c, tag);
    Tables(
      Bump(c.tagCounts, tag, count),
      Bump(c.wordCounts, word, count),
      c.emissions[tag := Bump(row, word, count)],
      c.ngrams,
      if tag in c.emissions then c.tagOrder else c.tagOrder + [tag])
  }

  /**
    A word-tag record changes exactly the tag's total, the tag's emission
    count for the word and the word's total; every other entry, the n-grams
    and the order of the existing tags are unchanged.
   */
  lemma AddWordTagEffect(c: Tables, count: nat, tag: string, word: string)
    requires tag in c.tagCounts ==> tag in c.emissions
    ensures var r := AddWordTag(c, count, tag, word);
      && r.tagCounts.Keys == c.tagCounts.Keys + {tag}
      && r.tagCounts[tag] == Get(c.tagCounts, tag) + count
      && (forall t :: t in c.tagCounts && t != tag ==> r.tagCounts[t] == c.tagCounts[t])
      && r.wordCounts.Keys == c.wordCounts.Keys + {word}
      && r.wordCounts[word] == Get(c.wordCounts, word) + count
      && (forall w :: w in c.wordCounts && w != word ==> r.wordCounts[w] == c.wordCounts[w])
      && r.emissions.Keys == c.emissions.Keys + {tag}
      && r.emissions[tag].Keys == FreshRow(c, tag).Keys + {word}
      && r.emissions[tag][word] == Get(FreshRow(c, tag), word) + count
      && (forall w :: w in FreshRow(c, tag) && w != word ==> r.emissions[tag][w] == FreshRow(c, tag)[w])
      && (forall t :: t in c.emissions && t != tag ==> r.emissions[t] == c.emissions[t])
      && r.ngrams == c.ngrams
      && r.tagOrder == (if tag in c.emissions then c.tagOrder else c.tagOrder + [tag])
  {
  }

  /** The effect of one n-gram record: `count` is added under the joined tag sequence. */
  function AddNgram(c: Tables, count: nat, key: string): (r: Tables)
    ensures r.ngrams.Keys == c.ngrams.Keys + {key}
    ensures r.ngrams[key] == Get(c.ngrams, key) + count
    ensures forall k :: k in c.ngrams && k != key ==> r.ngrams[k] == c.ngrams[k]
    ensures r.tagCounts == c.tagCounts && r.wordCounts == c.wordCounts
    ensures r.emissions == c.emissions && r.tagOrder == c.tagOrder
  {
    c.(ngrams := Bump(c.ngrams, key, count))
  }

  /** A word-tag record keeps the tables well formed. */
  lemma AddWordTagWellFormed(c: Tables, count: nat, tag: string, word: string)
    requires WellFormed(c)
    ensures WellFormed(AddWordTag(c, count, tag, word))
  {
    var r := AddWordTag(c, count, tag, word);
    if tag !in c.emissions {
      forall i, j | 0 <= i < j < |r.tagOrder| ensures r.tagOrder[i] != r.tagOrder[j] {
        if j == |c.tagOrder| {
          assert r.tagOrder[i] == c.tagOrder[i];
          assert c.tagOrder[i] in c.tagOrder;
        }
      }
    }
  }

  /** A word-tag record keeps every tag total equal to the sum of its emission counts. */
  lemma AddWordTagConsistent(c: Tables, count: nat, tag: string, word: string)
    requires WellFormed(c) && Consistent(c)
    ensures Consistent(AddWordTag(c, count, tag, word))
  {
    var r := AddWordTag(c, count, tag, word);
    var row := FreshRow(c, tag);
    forall t | t in r.tagCounts ensures t in r.emissions && MapSum(r.emissions[t]) == r.tagCounts[t] {
      if t == tag {
        MapSumUpdate(row, word, Get(row, word) + count);
        if tag !in c.tagCounts {
          assert MapSum(row) == 0;
        }
      } else {
        assert r.emissions[t] == c.emissions[t] && r.tagCounts[t] == c.tagCounts[t];
      }
    }
  }

  // ---------------------------------------------------------- record parsing

  /**
    The fields `process_wordtag` reads from a split row: the count from field
    0, the tag from field 2 and the word from field 3, each stripped. `None`
    where Python raises (a missing field or a count `int` rejects).
   */
  function ParseWordTag(row: seq<string>): Option<(nat, string, string)> {
    if |row| < 4 then None
    else
      match ParseCount(Strip(row[0]))
      case None => None
      case Some(n) => Some((n, Strip(row[2]), Strip(row[3])))
  }

  /**
    The fields `process_ngram` reads: the count from field 0 and, as key,
    fields 2 onwards re-joined with spaces and stripped.
   */
  function ParseNgram(row: seq<string>): Option<(nat, string)> {
    if |row| == 0 then None
    else
      match ParseCount(Strip(row[0]))
      case None => None
      case Some(n) => Some((n, Strip(Join(if |row| >= 2 then row[2..] else [], ' '))))
  }

  /** What one line of a counts file is, as `read_tag_count_file` dispatches it. */
  datatype CountLine =
    | WordTagLine(count: nat, tag: string, word: string)
    | NgramLine(count: nat, key: string)
    | OtherLine     // neither kind: ignored
    | BadLine       // Python raises on it

  /**
    Dispatch on field 1 of `line.split(' ')`: `WORDTAG` is a word-tag
    record, a field containing `GRAM` is an n-gram record, anything else is
    ignored. Tags and words read from a line never contain a space.
   */
  function ParseCountLine(line: string): CountLine {
    DispatchRow(Split(line, ' '))
  }

  /**
    The dispatch, case by case: a word-tag line has the kind `WORDTAG` and
    carries what `process_wordtag` reads, with a space-free tag and word; an
    n-gram line has a kind containing `GRAM` and carries what `process_ngram`
    reads; a line of any other kind is ignored; and a line raises exactly when
    it has fewer than two fields or its handler rejects it.
   */
  lemma ParseCountLineShape(line: string)
    ensures var r := ParseCountLine(line); var row := Split(line, ' ');
      && (r.WordTagLine? ==> ' ' !in r.tag && ' ' !in r.word)
      && (r.WordTagLine? ==> |row| >= 4 && row[1] == "WORDTAG" && ParseWordTag(row) == Some((r.count, r.tag, r.word)))
      && (r.NgramLine? ==>
            |row| >= 2 && row[1] != "WORDTAG" && Contains(row[1], "GRAM") && ParseNgram(row) == Some((r.count, r.key)))
      && (r.OtherLine? <==> |row| >= 2 && row[1] != "WORDTAG" && !Contains(row[1], "GRAM"))
      && (r.BadLine? <==>
            (|row| < 2
             || (row[1] == "WORDTAG" && ParseWordTag(row).None?)
             || (row[1] != "WORDTAG" && Contains(row[1], "GRAM") && ParseNgram(row).None?)))
  {
  }

  /** The dispatch of `read_tag_count_file` on an already split line. */
  function DispatchRow(row: seq<string>): (r: CountLine)
    requires forall i :: 0 <= i < |row| ==> ' ' !in row[i]
    ensures r.WordTagLine? ==> ' ' !in r.tag && ' ' !in r.word
  {
    if |row| < 2 then BadLine
    else if row[1] == "WORDTAG" then
      match ParseWordTag(row)
      case None => BadLine
      case Some((n, tag, word)) => WordTagLine(n, tag, word)
    else if Contains(row[1], "GRAM") then
      match ParseNgram(row)
      case None => BadLine
      case Some((n, key)) => NgramLine(n, key)
    else OtherLine
  }

  /** A word-tag record as the counts file writes it: its fields joined by spaces, then a newline. */
  function WordTagText(count: nat, tag: string, word: string): string {
    Join([ShowNat(count), "WORDTAG", tag, word], ' ') + "\n"
  }

  /** An n-gram record as the counts file writes it, e.g. `15 3-GRAM I-GENE I-GENE O`. */
  function NgramText(count: nat, tags: seq<string>): string {
    Join([ShowNat(count), ShowNat(|tags|) + "-GRAM"] + tags, ' ') + "\n"
  }

  /** The fields a record line splits into: the last field carries the newline. */
  function WithNewline(fields: seq<string>): seq<string>
    requires |fields| >= 1
  {
    fields[..|fields| - 1] + [fields[|fields| - 1] + "\n"]
  }

  /** Reading back a word-tag record recovers its count, tag and word. */
  lemma ParseWordTagText(count: nat, tag: string, word: string)
    requires NoSpace(tag) && NoSpace(word)
    ensures ParseCountLine(WordTagText(count, tag, word)) == WordTagLine(count, tag, word)
  {
    var row := WordTagFields(count, tag, word);
    DispatchWordTag(count, tag, word);
  }

  /** A word-tag record line splits into its four fields, the newline staying on the last. */
  lemma WordTagFields(count: nat, tag: string, word: string) returns (row: seq<string>)
    requires NoSpace(tag) && NoSpace(word)
    ensures row == [ShowNat(count), "WORDTAG", tag, word + "\n"]
    ensures Split(WordTagText(count, tag, word), ' ') == row
  {
    var fields := [ShowNat(count), "WORDTAG", tag, word];
    row := WithNewline(fields);
    assert row == [ShowNat(count), "WORDTAG", tag, word + "\n"];
    ParseShowNat(count);
    NoBlank(ShowNat(count));
    NoBlank(tag);
    NoBlank(word);
    JoinLastNewline(fields);
    SplitJoin(row, ' ');
  }

  /** The dispatch of a word-tag record's fields. */
  lemma DispatchWordTag(count: nat, tag: string, word: string)
    requires NoSpace(tag) && NoSpace(word)
    ensures DispatchRow([ShowNat(count), "WORDTAG", tag, word + "\n"]) == WordTagLine(count, tag, word)
  {
    var n := ShowNat(count);
    var row := [n, "WORDTAG", tag, word + "\n"];
    ParseShowNat(count);
    NoBlank(n);
    NoBlank(tag);
    NoBlank(word);
    StripNoSpace(n);
    StripNoSpace(tag);
    StripNoSpace(word);
    WordTagKindSpaceFree();
    forall i | 0 <= i < |row| ensures ' ' !in row[i] {
      if i == 0 {
        assert row[0] == n;
      } else if i == 1 {
        assert row[1] == "WORDTAG";
      } else if i == 2 {
        assert row[2] == tag;
      } else {
        assert row[3] == word + "\n";
      }
    }
    DispatchWordTagRow(row, count, tag, word);
  }

  /** The kind field of a word-tag record has no space. */
  lemma WordTagKindSpaceFree()
    ensures ' ' !in "WORDTAG"
  {
    var kind := "WORDTAG";
    forall k | 0 <= k < |kind| ensures kind[k] != ' ' {
    }
  }

  /** A space-free four-field `WORDTAG` row whose fields parse dispatches to that record. */
  lemma DispatchWordTagRow(row: seq<string>, count: nat, tag: string, word: string)
    requires |row| == 4 && forall i :: 0 <= i < |row| ==> ' ' !in row[i]
    requires row[1] == "WORDTAG"
    requires ParseCount(Strip(row[0])) == Some(count)
    requires Strip(row[2]) == tag && Strip(row[3]) == word
    ensures DispatchRow(row) == WordTagLine(count, tag, word)
  {
    assert ParseWordTag(row) == Some((count, tag, word));
  }

  /** Reading back an n-gram record recovers its count and the space-joined tags. */
  lemma ParseNgramText(count: nat, tags: seq<string>)
    requires 1 <= |tags|
    requires forall i :: 0 <= i < |tags| ==> NoSpace(tags[i]) && |tags[i]| > 0
    ensures ParseCountLine(NgramText(count, tags)) == NgramLine(count, Join(tags, ' '))
  {
    var row := NgramFields(count, tags);
    var n := ShowNat(count);
    ParseShowNat(count);
    StripNoSpace(n);
    var gram := ShowNat(|tags|) + "-GRAM";
    GramSuffix(ShowNat(|tags|));
    assert gram[0] == ShowNat(|tags|)[0];
    assert IsDigit(gram[0]);
    assert gram != "WORDTAG" by { assert "WORDTAG"[0] == 'W'; }
    assert row[2..] == WithNewline(tags);
    StripJoinNewline(tags);
    DispatchNgramRow(row, count, Join(tags, ' '));
  }

  /** An n-gram record line splits into count, kind and tag fields, the newline staying on the last. */
  lemma NgramFields(count: nat, tags: seq<string>) returns (row: seq<string>)
    requires 1 <= |tags|
    requires forall i :: 0 <= i < |tags| ==> NoSpace(tags[i])
    ensures row == [ShowNat(count), ShowNat(|tags|) + "-GRAM"] + WithNewline(tags)
    ensures forall i :: 0 <= i < |row| ==> ' ' !in row[i]
    ensures Split(NgramText(count, tags), ' ') == row
  {
    var gram := ShowNat(|tags|) + "-GRAM";
    var fields := [ShowNat(count), gram] + tags;
    row := WithNewline(fields);
    assert row == [ShowNat(count), gram] + WithNewline(tags);
    ParseShowNat(count);
    ParseShowNat(|tags|);
    NoBlank(ShowNat(count));
    NoBlank(ShowNat(|tags|));
    NoBlank(tags[|tags| - 1]);
    assert ' ' !in gram;
    forall i | 0 <= i < |row| ensures ' ' !in row[i] {
      if 2 <= i < |row| - 1 {
        assert row[i] == tags[i - 2];
        NoBlank(tags[i - 2]);
      }
    }
    JoinLastNewline(fields);
    SplitJoin(row, ' ');
  }

  /** The dispatch of an n-gram record's fields. */
  lemma DispatchNgramRow(row: seq<string>, count: nat, key: string)
    requires |row| >= 2 && forall i :: 0 <= i < |row| ==> ' ' !in row[i]
    requires row[1] != "WORDTAG" && Contains(row[1], "GRAM")
    requires ParseCount(Strip(row[0])) == Some(count)
    requires Strip(Join(row[2..], ' ')) == key
    ensures DispatchRow(row) == NgramLine(count, key)
  {
    assert ParseNgram(row) == Some((count, key));
  }

  /** A string without whitespace has no space, also after one trailing newline. */
  lemma NoBlank(s: string)
    requires NoSpace(s)
    ensures ' ' !in s && ' ' !in s + "\n"
  {
    assert forall k :: 0 <= k < |s| ==> (s + "\n")[k] == s[k];
  }

  /** Appending a newline to the last field appends it to the joined string. */
  lemma {:induction false} JoinLastNewline(fields: seq<string>)
    requires 1 <= |fields|
    ensures Join(WithNewline(fields), ' ') == Join(fields, ' ') + "\n"
    decreases |fields|
  {
    if |fields| > 1 {
      JoinLastNewline(fields[1..]);
      assert WithNewline(fields)[1..] == WithNewline(fields[1..]);
    }
  }

  /** Space-free fields joined with spaces, with a trailing newline, strip to the joined fields. */
  lemma StripJoinNewline(tags: seq<string>)
    requires 1 <= |tags|
    requires forall i :: 0 <= i < |tags| ==> NoSpace(tags[i]) && |tags[i]| > 0
    ensures Strip(Join(WithNewline(tags), ' ')) == Join(tags, ' ')
  {
    JoinLastNewline(tags);
    var j := Join(tags, ' ');
    JoinEnds(tags);
    JoinNonEmpty(tags);
    StripTrimmed(j);
  }

  /** Joined non-empty space-free fields neither start nor end with whitespace. */
  lemma {:induction false} JoinEnds(tags: seq<string>)
    requires forall i :: 0 <= i < |tags| ==> NoSpace(tags[i]) && |tags[i]| > 0
    ensures var j := Join(tags, ' '); |j| > 0 ==> !IsSpace(j[0]) && !IsSpace(j[|j| - 1])
    decreases |tags|
  {
    if |tags| > 1 {
      JoinEnds(tags[1..]);
      var j := Join(tags, ' ');
      var rest := Join(tags[1..], ' ');
      assert j == tags[0] + [' '] + rest;
      assert j[0] == tags[0][0];
      JoinNonEmpty(tags[1..]);
      assert j[|j| - 1] == rest[|rest| - 1];
    }
  }

  /** Joining non-empty fields gives a non-empty string. */
  lemma {:induction false} JoinNonEmpty(tags: seq<string>)
    requires 1 <= |tags|
    requires forall i :: 0 <= i < |tags| ==> |tags[i]| > 0
    ensures |Join(tags, ' ')| > 0
  {
  }

  /** Any string followed by `-GRAM` contains `GRAM`. */
  lemma {:induction false} GramSuffix(s: string)
    ensures Contains(s + "-GRAM", "GRAM")
    decreases |s|
  {
    var t := s + "-GRAM";
    if |s| == 0 {
      assert t[1..] == "GRAM";
      assert t[1..][..4] == "GRAM";
    } else {
      assert t[1..] == s[1..] + "-GRAM";
      GramSuffix(s[1..]);
    }
  }

  // ----------------------------------------------------------------- loading

  /** The effect of a line that does not raise. */
  function ApplyLine(c: Tables, l: CountLine): Tables
    requires !l.BadLine?
    requires c.tagCounts.Keys <= c.emissions.Keys
  {
    match l
    case WordTagLine(n, tag, word) => AddWordTag(c, n, tag, word)
    case NgramLine(n, key) => AddNgram(c, n, key)
    case OtherLine => c
  }

  /** The tables after a load, and the index of the line that raised, if one did. */
  datatype Loaded = Loaded(tables: Tables, failedAt: Option<nat>)

  /**
    How `read_tag_count_file` applies a stream of dispatched lines: each is
    applied in order; the first malformed one stops the load, keeping the
    effect of the lines before it.
   */
  function LoadRecords(c: Tables, records: seq<CountLine>): (r: Loaded)
    requires c.tagCounts.Keys <= c.emissions.Keys
    ensures r.tables.tagCounts.Keys <= r.tables.emissions.Keys
    decreases |records|
  {
    if |records| == 0 then Loaded(c, None)
    else
      var n := |records| - 1;
      var prev := LoadRecords(c, records[..n]);
      if prev.failedAt.Some? then prev
      else if records[n].BadLine? then Loaded(prev.tables, Some(n))
      else Loaded(ApplyLine(prev.tables, records[n]), None)
  }

  /** A load fails exactly when some record is malformed, and then at the first malformed one. */
  lemma {:induction false} LoadRecordsSpec(c: Tables, records: seq<CountLine>)
    requires c.tagCounts.Keys <= c.emissions.Keys
    ensures var r := LoadRecords(c, records);
      && (r.failedAt.None? <==> forall i :: 0 <= i < |records| ==> !records[i].BadLine?)
      && (r.failedAt.Some? ==>
            && r.failedAt.value < |records|
            && records[r.failedAt.value].BadLine?
            && forall i :: 0 <= i < r.failedAt.value ==> !records[i].BadLine?)
    decreases |records|
  {
    if |records| > 0 {
      var n := |records| - 1;
      assert forall i :: 0 <= i < n ==> records[..n][i] == records[i];
      LoadRecordsSpec(c, records[..n]);
      var prev := LoadRecords(c, records[..n]).failedAt;
      assert LoadRecords(c, records).failedAt ==
        if prev.Some? then prev else if records[n].BadLine? then Some(n) else None;
    }
  }

  /** Each line of a counts file, dispatched. */
  function ParsedLines(lines: seq<string>): (r: seq<CountLine>)
    ensures |r| == |lines|
    ensures forall i :: 0 <= i < |lines| ==> r[i] == ParseCountLine(lines[i])
  {
    seq(|lines|, i requires 0 <= i < |lines| => ParseCountLine(lines[i]))
  }

  /** `read_tag_count_file` on the given lines. */
  function LoadLines(c: Tables, lines: seq<string>): Loaded
    requires c.tagCounts.Keys <= c.emissions.Keys
  {
    LoadRecords(c, ParsedLines(lines))
  }

  /**
    A load fails exactly when some line is malformed, and then at the first
    malformed line.
   */
  lemma LoadLinesFailure(c: Tables, lines: seq<string>)
    requires c.tagCounts.Keys <= c.emissions.Keys
    ensures var r := LoadLines(c, lines);
      && (r.failedAt.None? <==> forall i :: 0 <= i < |lines| ==> !ParseCountLine(lines[i]).BadLine?)
      && (r.failedAt.Some? ==>
            && r.failedAt.value < |lines|
            && ParseCountLine(lines[r.failedAt.value]).BadLine?
            && forall i :: 0 <= i < r.failedAt.value ==> !ParseCountLine(lines[i]).BadLine?)
  {
    var records := ParsedLines(lines);
    var r := LoadRecords(c, records);
    LoadRecordsSpec(c, records);
    if r.failedAt.None? {
      assert forall i :: 0 <= i < |lines| ==> !records[i].BadLine?;
    } else {
      assert records[r.failedAt.value].BadLine?;
    }
  }

  /** Once a line has raised, later lines change nothing. */
  lemma {:induction false} LoadRecordsAfterFailure(c: Tables, records: seq<CountLine>, k: nat)
    requires c.tagCounts.Keys <= c.emissions.Keys
    requires k <= |records|
    requires LoadRecords(c, records[..k]).failedAt.Some?
    ensures LoadRecords(c, records) == LoadRecords(c, records[..k])
    decreases |records|
  {
    if k < |records| {
      var n := |records| - 1;
      assert records[..n][..k] == records[..k];
      LoadRecordsAfterFailure(c, records[..n], k);
    } else {
      assert records[..k] == records;
    }
  }

  /** Word-tag records whose tags have no space. */
  ghost predicate SpaceFreeRecords(records: seq<CountLine>) {
    forall i :: 0 <= i < |records| ==> records[i].WordTagLine? ==> ' ' !in records[i].tag
  }

  /** Loading keeps the tables well formed. */
  lemma {:induction false} LoadRecordsWellFormed(c: Tables, records: seq<CountLine>)
    requires WellFormed(c)
    ensures WellFormed(LoadRecords(c, records).tables)
    decreases |records|
  {
    if |records| > 0 {
      var n := |records| - 1;
      LoadRecordsWellFormed(c, records[..n]);
      var prev := LoadRecords(c, records[..n]);
      var l := records[n];
      if prev.failedAt.None? && l.WordTagLine? {
        AddWordTagWellFormed(prev.tables, l.count, l.tag, l.word);
      }
    }
  }

  /** Loading keeps every tag total equal to the sum of its emission row. */
  lemma {:induction false} LoadRecordsConsistent(c: Tables, records: seq<CountLine>)
    requires WellFormed(c) && Consistent(c)
    ensures Consistent(LoadRecords(c, records).tables)
    decreases |records|
  {
    if |records| > 0 {
      var n := |records| - 1;
      LoadRecordsConsistent(c, records[..n]);
      LoadRecordsWellFormed(c, records[..n]);
      var prev := LoadRecords(c, records[..n]);
      var l := records[n];
      if prev.failedAt.None? && l.WordTagLine? {
        AddWordTagConsistent(prev.tables, l.count, l.tag, l.word);
      }
    }
  }

  /** Loading records whose tags have no space keeps the tag keys space free. */
  lemma {:induction false} LoadRecordsSpaceFree(c: Tables, records: seq<CountLine>)
    requires WellFormed(c) && SpaceFreeTags(c) && SpaceFreeRecords(records)
    ensures SpaceFreeTags(LoadRecords(c, records).tables)
    decreases |records|
  {
    if |records| > 0 {
      var n := |records| - 1;
      assert forall i :: 0 <= i < n ==> records[..n][i] == records[i];
      LoadRecordsSpaceFree(c, records[..n]);
      LoadRecordsWellFormed(c, records[..n]);
      var prev := LoadRecords(c, records[..n]);
      var l := records[n];
      if prev.failedAt.None? && l.WordTagLine? {
        AddWordTagEffect(prev.tables, l.count, l.tag, l.word);
      }
    }
  }

  /** Loading a counts file keeps the tables well formed and count consistent, and tag keys space free. */
  lemma LoadLinesInvariants(c: Tables, lines: seq<string>)
    requires WellFormed(c)
    ensures WellFormed(LoadLines(c, lines).tables)
    ensures Consistent(c) ==> Consistent(LoadLines(c, lines).tables)
    ensures SpaceFreeTags(c) ==> SpaceFreeTags(LoadLines(c, lines).tables)
  {
    var records := ParsedLines(lines);
    forall i | 0 <= i < |records| ensures records[i].WordTagLine? ==> ' ' !in records[i].tag {
      ParseCountLineShape(lines[i]);
    }
    LoadRecordsWellFormed(c, records);
    if Consistent(c) { LoadRecordsConsistent(c, records); }
    if SpaceFreeTags(c) { LoadRecordsSpaceFree(c, records); }
  }

  // ------------------------------------------------------ emission probability

  /**
    What `get_emission_prob(word, tag)` needs in order not to raise: a tag
    with a total has an emission row, and the division by the tag total is
    only reached with a positive total.
   */
  predicate Scorable(c: Tables, word: string, tag: string) {
    tag in c.tagCounts ==> tag in c.emissions && (word in c.emissions[tag] ==> c.tagCounts[tag] > 0)
  }

  /**
    e(word | tag) = count(tag => word) / count(tag), and 0 when the tag or the
    pair was never seen. The probability is an exact ratio.
   */
  function EmissionProb(c: Tables, word: string, tag: string): (p: real)
    requires Scorable(c, word, tag)
    ensures p >= 0.0
    ensures p > 0.0 <==> tag in c.tagCounts && word in c.emissions[tag] && c.emissions[tag][word] > 0
    ensures p == 0.0 <==> tag !in c.tagCounts || word !in c.emissions[tag] || c.emissions[tag][word] == 0
  {
    if tag !in c.tagCounts || word !in c.emissions[tag] then 0.0
    else (c.emissions[tag][word] as real) / (c.tagCounts[tag] as real)
  }

  /** In count-consistent tables every emission probability is at most 1. */
  lemma EmissionProbAtMostOne(c: Tables, word: string, tag: string)
    requires Scorable(c, word, tag)
    requires Consistent(c)
    ensures EmissionProb(c, word, tag) <= 1.0
  {
    if tag in c.tagCounts && word in c.emissions[tag] {
      MapSumElement(c.emissions[tag], word);
      EntryRatio(c.emissions[tag][word], c.tagCounts[tag]);
    }
  }

  /** A ratio of a count to a positive count it does not exceed is at most 1. */
  lemma EntryRatio(e: nat, t: nat)
    requires 0 < t && e <= t
    ensures (e as real) / (t as real) <= 1.0
  {
    assert (e as real) <= (t as real);
  }
}
