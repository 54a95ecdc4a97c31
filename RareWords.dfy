/**
  Rare-word handling: the single category keyword `_RARE_`, the resolution
  `get_tag` applies to a word before scoring it, and the folding
  `flag_rare_words` performs on the tables.
 */
module RareWords {
  import opened Sums
  import opened CountModel

  /** Words seen fewer times than this are rare. */
  const RareThreshold: nat := 5

  /** The category keywords rare words are grouped under. */
  const CategoryKeywords: seq<string> := ["_RARE_"]

  /** The keyword rare counts are folded into. */
  const RareKey: string := CategoryKeywords[0]

  /** `get_rare_keyword`: the category of a rare word. There is one category, so it is always `_RARE_`. */
  function RareKeyword(word: string): (k: string)
    ensures k in CategoryKeywords && k == "_RARE_"
  {
    CategoryKeywords[0]
  }

  /** The word `get_tag` scores: the word itself when seen at least `RareThreshold` times, its keyword otherwise. */
  function Resolve(c: Tables, word: string): (r: string)
    ensures word in c.wordCounts && c.wordCounts[word] >= RareThreshold ==> r == word
    ensures word !in c.wordCounts || c.wordCounts[word] < RareThreshold ==> r == RareKey
    ensures r == word || r in CategoryKeywords
  {
    if word !in c.wordCounts || c.wordCounts[word] < RareThreshold then RareKeyword(word) else word
  }

  /** Resolving twice is resolving once. */
  lemma ResolveIdempotent(c: Tables, word: string)
    ensures Resolve(c, Resolve(c, word)) == Resolve(c, word)
  {
  }

  /** The words of a word table that are rare. */
  ghost function RareSet(wordCounts: map<string, nat>): (s: set<string>)
    ensures forall w :: w in s <==> w in wordCounts && wordCounts[w] < RareThreshold
  {
    set w | w in wordCounts && wordCounts[w] < RareThreshold
  }

  /**
    One table after folding the words `rare` into `key`: `key` gains the
    counts of every rare word present (the entry appears if some rare word is
    present), and every other entry keeps its count.
   */
  ghost function FoldInto(m: map<string, nat>, rare: set<string>, key: string): (r: map<string, nat>)
    ensures r.Keys == if m.Keys * rare == {} then m.Keys else m.Keys + {key}
    ensures forall w :: w in m && w != key ==> r[w] == m[w]
    ensures Get(r, key) == Get(m, key) + MapSum(Restrict(m, rare))
  {
    if m.Keys * rare == {} then
      assert Restrict(m, rare) == map[];
      m
    else
      Bump(m, key, MapSum(Restrict(m, rare)))
  }

  /**
    The tables after `flag_rare_words`: the word table and every emission row
    are folded over the words that were rare in the word table beforehand.
   */
  ghost function FoldRare(c: Tables): (r: Tables)
    ensures r.tagCounts == c.tagCounts && r.ngrams == c.ngrams && r.tagOrder == c.tagOrder
    ensures r.emissions.Keys == c.emissions.Keys
    ensures r.wordCounts == FoldInto(c.wordCounts, RareSet(c.wordCounts), RareKey)
    ensures forall t :: t in c.emissions ==> r.emissions[t] == FoldInto(c.emissions[t], RareSet(c.wordCounts), RareKey)
  {
    var rare := RareSet(c.wordCounts);
    c.(wordCounts := FoldInto(c.wordCounts, rare, RareKey),
       emissions := map t | t in c.emissions :: FoldInto(c.emissions[t], rare, RareKey))
  }

  /**
    What folding does to the counts: every entry other than `_RARE_` keeps
    its count, in the word table and in every emission row, and `_RARE_`
    gains the counts of the words that were rare, table by table.
   */
  lemma FoldRareEffect(c: Tables)
    ensures var r := FoldRare(c);
      && (forall w :: w in c.wordCounts && w != RareKey ==> w in r.wordCounts && r.wordCounts[w] == c.wordCounts[w])
      && Get(r.wordCounts, RareKey) == Get(c.wordCounts, RareKey) + MapSum(Restrict(c.wordCounts, RareSet(c.wordCounts)))
      && (forall t, w :: t in c.emissions && w in c.emissions[t] && w != RareKey ==>
            w in r.emissions[t] && r.emissions[t][w] == c.emissions[t][w])
      && (forall t :: t in c.emissions ==>
            Get(r.emissions[t], RareKey) == Get(c.emissions[t], RareKey) + MapSum(Restrict(c.emissions[t], RareSet(c.wordCounts))))
  {
  }

  /**
    One step of `flag_rare_words` on one table: a table holding `word` adds
    the word's count to `key`'s (which starts at 0); a table without it is
    unchanged.
   */
  function FoldWord(m: map<string, nat>, word: string, key: string): (r: map<string, nat>)
    ensures r.Keys == if word in m then m.Keys + {key} else m.Keys
    ensures forall w :: w in m && w != key ==> r[w] == m[w]
    ensures Get(r, key) == Get(m, key) + Get(m, word)
  {
    if word in m then Bump(m, key, m[word]) else m
  }

  /** Folding one more rare word is one more `FoldWord` step on the folded table. */
  lemma FoldIntoStep(m: map<string, nat>, rare: set<string>, w: string, key: string)
    requires w !in rare && key !in rare && w != key
    ensures FoldInto(m, rare + {w}, key) == FoldWord(FoldInto(m, rare, key), w, key)
  {
    MapSumRestrictAdd(m, rare, w);
    var before := FoldInto(m, rare, key);
    var after := FoldInto(m, rare + {w}, key);
    var step := FoldWord(before, w, key);
    if w in m {
      assert w in m.Keys * (rare + {w});
    } else {
      assert m.Keys * (rare + {w}) == m.Keys * rare;
    }
    assert Get(before, w) == Get(m, w);
    assert after.Keys == step.Keys;
    forall j | j in after ensures after[j] == step[j] {
      if j == key {
        assert after[j] == Get(after, key) && step[j] == Get(step, key);
      }
    }
  }

  /** The same step on every emission row at once. */
  lemma FoldRowsStep(rows0: map<string, map<string, nat>>, before: map<string, map<string, nat>>,
                     after: map<string, map<string, nat>>, rare: set<string>, w: string, key: string)
    requires w !in rare && key !in rare && w != key
    requires forall t :: t in rows0 ==> t in before && before[t] == FoldInto(rows0[t], rare, key)
    requires forall t :: t in before ==> t in after && after[t] == FoldWord(before[t], w, key)
    ensures forall t :: t in rows0 ==> after[t] == FoldInto(rows0[t], rare + {w}, key)
  {
    forall t | t in rows0 ensures after[t] == FoldInto(rows0[t], rare + {w}, key) {
      FoldIntoStep(rows0[t], rare, w, key);
    }
  }

  /**
    Folding does not move counts, it copies them: the table's sum grows by
    the rare words' counts, so a tag total no longer equals the sum of its
    emission row once some rare word has a positive count under it.
   */
  lemma FoldIntoSum(m: map<string, nat>, rare: set<string>, key: string)
    requires key !in rare
    ensures MapSum(FoldInto(m, rare, key)) == MapSum(m) + MapSum(Restrict(m, rare))
  {
    if m.Keys * rare != {} {
      MapSumUpdate(m, key, Get(m, key) + MapSum(Restrict(m, rare)));
    }
  }

  /** After folding no entry exceeds the table's sum before folding. */
  lemma FoldIntoBounded(m: map<string, nat>, rare: set<string>, key: string)
    requires key !in rare
    ensures forall w :: w in FoldInto(m, rare, key) ==> FoldInto(m, rare, key)[w] <= MapSum(m)
  {
    var r := FoldInto(m, rare, key);
    forall w | w in r ensures r[w] <= MapSum(m) {
      if w == key {
        MapSumRestrictAdd(m, rare, key);
        MapSumRestrictBound(m, rare + {key});
      } else {
        MapSumElement(m, w);
      }
    }
  }

  /** Folding again adds the rare counts to the keyword a second time. */
  lemma FoldIntoTwice(m: map<string, nat>, rare: set<string>, key: string)
    requires key !in rare
    ensures Get(FoldInto(FoldInto(m, rare, key), rare, key), key) ==
      Get(FoldInto(m, rare, key), key) + MapSum(Restrict(m, rare))
  {
    assert Restrict(FoldInto(m, rare, key), rare) == Restrict(m, rare);
  }

  /**
    `flag_rare_words` is not idempotent: when the rare words carry a positive
    count and the keyword is itself frequent afterwards (so a second call is
    allowed), a second call adds their counts to `_RARE_` again.
   */
  lemma FoldRareNotIdempotent(c: Tables)
    requires RareKey !in RareSet(c.wordCounts)
    requires MapSum(Restrict(c.wordCounts, RareSet(c.wordCounts))) > 0
    requires RareKey in FoldRare(c).wordCounts && FoldRare(c).wordCounts[RareKey] >= RareThreshold
    ensures RareKey !in RareSet(FoldRare(c).wordCounts)
    ensures Get(FoldRare(FoldRare(c)).wordCounts, RareKey) ==
      Get(FoldRare(c).wordCounts, RareKey) + MapSum(Restrict(c.wordCounts, RareSet(c.wordCounts)))
    ensures FoldRare(FoldRare(c)) != FoldRare(c)
  {
    var once := FoldRare(c);
    assert RareSet(once.wordCounts) == RareSet(c.wordCounts);
    FoldIntoTwice(c.wordCounts, RareSet(c.wordCounts), RareKey);
    assert FoldRare(once).wordCounts == FoldInto(once.wordCounts, RareSet(c.wordCounts), RareKey);
  }

  /**
    After folding count-consistent tables, every emission probability is
    still at most 1: the `_RARE_` entry of a tag sums counts of distinct
    words of that tag, which never exceed its total.
   */
  lemma FoldRareEmissionAtMostOne(c: Tables, word: string, tag: string)
    requires Consistent(c)
    requires RareKey !in RareSet(c.wordCounts)
    requires Scorable(FoldRare(c), word, tag)
    ensures EmissionProb(FoldRare(c), word, tag) <= 1.0
  {
    var r := FoldRare(c);
    if tag in r.tagCounts && word in r.emissions[tag] {
      var rare := RareSet(c.wordCounts);
      assert r.emissions[tag] == FoldInto(c.emissions[tag], rare, RareKey);
      FoldIntoBounded(c.emissions[tag], rare, RareKey);
      EntryRatio(r.emissions[tag][word], r.tagCounts[tag]);
    }
  }

  /** Folding keeps the tables well formed. */
  lemma FoldRareWellFormed(c: Tables)
    requires WellFormed(c)
    ensures WellFormed(FoldRare(c))
  {
  }

  /** Per tag, the emission sum after folding is the tag total plus that tag's rare counts. */
  lemma FoldRareSums(c: Tables, tag: string)
    requires Consistent(c)
    requires RareKey !in RareSet(c.wordCounts)
    requires tag in c.tagCounts
    ensures MapSum(FoldRare(c).emissions[tag]) ==
      FoldRare(c).tagCounts[tag] + MapSum(Restrict(c.emissions[tag], RareSet(c.wordCounts)))
  {
    FoldIntoSum(c.emissions[tag], RareSet(c.wordCounts), RareKey);
  }
}
