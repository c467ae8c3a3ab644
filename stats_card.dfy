/**
 The statistics panel (frontend/src/components/StatsCard.tsx): every figure is
 derived afresh from the history. `genreCounts` is a JavaScript object, whose
 string keys keep the order in which they were first written; it is modelled
 as a `Tally`, an insertion-ordered map.
 */
module StatsCard {
  import opened Wrappers
  import opened History

  /* ---------- Reference definitions ---------- */

  /** How many items of the history carry `genre`. */
  ghost function CountOf(history: seq<Classification>, genre: string): nat
  {
    if history == [] then 0
    else (if history[0].genre == genre then 1 else 0) + CountOf(history[1..], genre)
  }

  /** The genres that occur in the history. */
  ghost function GenresIn(history: seq<Classification>): set<string>
  {
    set i | 0 <= i < |history| :: history[i].genre
  }

  lemma {:induction false} CountOfSnoc(history: seq<Classification>, item: Classification, genre: string)
    ensures CountOf(history + [item], genre) == CountOf(history, genre) + (if item.genre == genre then 1 else 0)
  {
    if history != [] {
      assert (history + [item])[1..] == history[1..] + [item];
      CountOfSnoc(history[1..], item, genre);
    }
  }

  lemma {:induction false} CountOfPositive(history: seq<Classification>, genre: string)
    ensures CountOf(history, genre) > 0 <==> genre in GenresIn(history)
  {
    if history != [] {
      CountOfPositive(history[1..], genre);
      assert GenresIn(history) == {history[0].genre} + GenresIn(history[1..]) by {
        forall g | g in GenresIn(history) ensures g in {history[0].genre} + GenresIn(history[1..]) {
          var i :| 0 <= i < |history| && history[i].genre == g;
          if i > 0 { assert history[1..][i - 1].genre == g; }
        }
        forall g | g in GenresIn(history[1..]) ensures g in GenresIn(history) {
          var i :| 0 <= i < |history[1..]| && history[1..][i].genre == g;
          assert history[i + 1].genre == g;
        }
      }
    }
  }

  /** The position of the earliest item of the history carrying `genre`. */
  ghost function FirstIndex(history: seq<Classification>, genre: string): (k: nat)
    requires CountOf(history, genre) > 0
    ensures k < |history| && history[k].genre == genre
    ensures forall j :: 0 <= j < k ==> history[j].genre != genre
  {
    if history[0].genre == genre then 0
    else
      var k := FirstIndex(history[1..], genre);
      assert forall j :: 1 <= j < k + 1 ==> history[j] == history[1..][j - 1];
      k + 1
  }

  /** Any earliest occurrence is the one `FirstIndex` finds. */
  lemma FirstIndexUnique(history: seq<Classification>, genre: string, k: nat)
    requires k < |history| && history[k].genre == genre
    requires forall j :: 0 <= j < k ==> history[j].genre != genre
    ensures CountOf(history, genre) > 0 && FirstIndex(history, genre) == k
  {
    CountOfPositive(history, genre);
  }

  /* ---------- genreCounts ---------- */

  /** The `genreCounts` object: its keys in insertion order, and each key's count. */
  datatype Tally = Tally(keys: seq<string>, count: map<string, nat>)

  ghost predicate Distinct(keys: seq<string>)
  {
    forall i, j :: 0 <= i < j < |keys| ==> keys[i] != keys[j]
  }

  /** The keys are distinct and are exactly the keys of the count map. */
  ghost predicate WellFormed(t: Tally)
  {
    && Distinct(t.keys)
    && (forall g :: g in t.count <==> g in t.keys)
  }

  /** One step of the `reduce`: `acc[genre] = (acc[genre] || 0) + 1`. */
  function Bump(t: Tally, genre: string): Tally
  {
    if genre in t.count then Tally(t.keys, t.count[genre := t.count[genre] + 1])
    else Tally(t.keys + [genre], t.count[genre := 1])
  }

  lemma CountOfSnocAll(history: seq<Classification>, item: Classification)
    ensures forall g :: CountOf(history + [item], g) == CountOf(history, g) + (if item.genre == g then 1 else 0)
  {
    forall g ensures CountOf(history + [item], g) == CountOf(history, g) + (if item.genre == g then 1 else 0) {
      CountOfSnoc(history, item, g);
    }
  }

  /**
   `genreCounts`: the history folded from index 0, the newest record, on.
   Its keys are exactly the genres that occur, each mapped to its number of
   occurrences.
   */
  function GenreCounts(history: seq<Classification>): (t: Tally)
    ensures WellFormed(t)
    ensures forall g :: g in t.count <==> CountOf(history, g) > 0
    ensures forall g :: g in t.count ==> t.count[g] == CountOf(history, g)
  {
    if history == [] then Tally([], map[])
    else
      var n := |history| - 1;
      var prior := GenreCounts(history[..n]);
      assert history == history[..n] + [history[n]];
      CountOfSnocAll(history[..n], history[n]);
      Bump(prior, history[n].genre)
  }

  /** `totalClassifications`: the number of records, which is also the sum of the genre counts. */
  function Total(history: seq<Classification>): (n: nat)
    ensures n == SumCounts(GenreCounts(history).keys, GenreCounts(history).count)
  {
    CountsSumToTotal(history);
    |history|
  }

  /** Sum of the counts of `keys`, as the panel's numbers would add up. */
  ghost function SumCounts(keys: seq<string>, count: map<string, nat>): nat
  {
    if keys == [] then 0
    else (if keys[0] in count then count[keys[0]] else 0) + SumCounts(keys[1..], count)
  }

  lemma {:induction false} SumCountsSnoc(keys: seq<string>, genre: string, count: map<string, nat>)
    ensures SumCounts(keys + [genre], count) == SumCounts(keys, count) + (if genre in count then count[genre] else 0)
  {
    if keys != [] {
      assert (keys + [genre])[1..] == keys[1..] + [genre];
      SumCountsSnoc(keys[1..], genre, count);
    }
  }

  /** Changing the count of a genre that is not among `keys` does not change their sum. */
  lemma {:induction false} SumCountsFrame(keys: seq<string>, count: map<string, nat>, genre: string, n: nat)
    requires genre !in keys
    ensures SumCounts(keys, count[genre := n]) == SumCounts(keys, count)
  {
    if keys != [] {
      assert keys[0] != genre;
      SumCountsFrame(keys[1..], count, genre, n);
    }
  }

  /** Adding one to the count of one of `keys` adds one to their sum. */
  lemma {:induction false} SumCountsIncrement(keys: seq<string>, count: map<string, nat>, genre: string)
    requires Distinct(keys) && genre in keys && genre in count
    ensures SumCounts(keys, count[genre := count[genre] + 1]) == SumCounts(keys, count) + 1
  {
    if keys[0] == genre {
      assert genre !in keys[1..] by {
        forall i | 0 <= i < |keys[1..]| ensures keys[1..][i] != genre {
          assert keys[1..][i] == keys[i + 1];
        }
      }
      SumCountsFrame(keys[1..], count, genre, count[genre] + 1);
    } else {
      assert Distinct(keys[1..]) by {
        forall i, j | 0 <= i < j < |keys[1..]| ensures keys[1..][i] != keys[1..][j] {
          assert keys[1..][i] == keys[i + 1] && keys[1..][j] == keys[j + 1];
        }
      }
      SumCountsIncrement(keys[1..], count, genre);
    }
  }

  /** The counts add up to the number of classifications. */
  lemma {:induction false} CountsSumToTotal(history: seq<Classification>)
    ensures var t := GenreCounts(history); SumCounts(t.keys, t.count) == |history|
  {
    if history != [] {
      var n := |history| - 1;
      var prior := GenreCounts(history[..n]);
      var genre := history[n].genre;
      CountsSumToTotal(history[..n]);
      if genre in prior.count {
        SumCountsIncrement(prior.keys, prior.count, genre);
      } else {
        SumCountsSnoc(prior.keys, genre, prior.count[genre := 1]);
        SumCountsFrame(prior.keys, prior.count, genre, 1);
      }
    }
  }

  /* ---------- Key order ---------- */

  /** Every key occurs in the history, and keys are ordered by their first occurrence. */
  ghost predicate InFirstOccurrenceOrder(history: seq<Classification>, keys: seq<string>)
  {
    && (forall i :: 0 <= i < |keys| ==> CountOf(history, keys[i]) > 0)
    && (forall i, j :: 0 <= i < j < |keys| ==> FirstIndex(history, keys[i]) < FirstIndex(history, keys[j]))
  }

  /** Appending an item does not move the first occurrence of a genre already present. */
  lemma FirstIndexSnoc(history: seq<Classification>, item: Classification, genre: string)
    requires CountOf(history, genre) > 0
    ensures CountOf(history + [item], genre) > 0
    ensures FirstIndex(history + [item], genre) == FirstIndex(history, genre)
  {
    var k := FirstIndex(history, genre);
    FirstIndexUnique(history + [item], genre, k);
  }

  /**
   The keys of `genreCounts` come in the order in which their genres first
   occur in the history: this is the order `Object.entries` reports them in.
   */
  lemma {:induction false} KeysInFirstOccurrenceOrder(history: seq<Classification>)
    ensures InFirstOccurrenceOrder(history, GenreCounts(history).keys)
  {
    if history != [] {
      var n := |history| - 1;
      var prefix := history[..n];
      var item := history[n];
      assert history == prefix + [item];
      var prior := GenreCounts(prefix);
      KeysInFirstOccurrenceOrder(prefix);
      forall i | 0 <= i < |prior.keys|
        ensures CountOf(history, prior.keys[i]) > 0
        ensures FirstIndex(history, prior.keys[i]) == FirstIndex(prefix, prior.keys[i])
        ensures FirstIndex(history, prior.keys[i]) < n
      {
        FirstIndexSnoc(prefix, item, prior.keys[i]);
      }
      if item.genre !in prior.count {
        CountOfPositive(prefix, item.genre);
        forall j | 0 <= j < n ensures history[j].genre != item.genre {
          assert prefix[j].genre in GenresIn(prefix);
        }
        FirstIndexUnique(history, item.genre, n);
      }
    }
  }

  /* ---------- mostCommonGenre ---------- */

  /** A `[genre, count]` pair of `Object.entries(genreCounts)`. */
  datatype Entry = Entry(genre: string, count: nat)

  /** `Object.entries(genreCounts)`: the pairs in key order. */
  function Entries(t: Tally): seq<Entry>
  {
    seq(|t.keys|, i requires 0 <= i < |t.keys| => Entry(t.keys[i], if t.keys[i] in t.count then t.count[t.keys[i]] else 0))
  }

  ghost predicate Descending(es: seq<Entry>)
  {
    forall i, j :: 0 <= i < j < |es| ==> es[i].count >= es[j].count
  }

  /** Puts `e` before the first entry whose count is not greater than its own. */
  function Insert(e: Entry, sorted: seq<Entry>): (r: seq<Entry>)
    ensures multiset(r) == multiset(sorted) + multiset{e}
  {
    if sorted == [] || e.count >= sorted[0].count then [e] + sorted
    else
      assert sorted == [sorted[0]] + sorted[1..];
      [sorted[0]] + Insert(e, sorted[1..])
  }

  lemma {:induction false} InsertKeepsDescending(e: Entry, sorted: seq<Entry>)
    requires Descending(sorted)
    ensures Descending(Insert(e, sorted))
  {
    if sorted != [] && e.count < sorted[0].count {
      var rest := Insert(e, sorted[1..]);
      InsertKeepsDescending(e, sorted[1..]);
      forall j | 0 <= j < |rest| ensures rest[j].count <= sorted[0].count {
        assert rest[j] in multiset(rest);
        if rest[j] != e {
          assert rest[j] in multiset(sorted[1..]);
          var i :| 0 <= i < |sorted[1..]| && sorted[1..][i] == rest[j];
          assert sorted[i + 1] == rest[j];
        }
      }
    }
  }

  /**
   `.sort((a, b) => b[1] - a[1])`: a stable sort into descending count order
   (an insertion sort; `Array.prototype.sort` is stable, and a stable sort's
   output is determined by its input).
   */
  function SortByCountDesc(es: seq<Entry>): (r: seq<Entry>)
    ensures multiset(r) == multiset(es) && |r| == |es|
    ensures Descending(r)
  {
    if es == [] then []
    else
      var rest := SortByCountDesc(es[1..]);
      assert es == [es[0]] + es[1..];
      InsertKeepsDescending(es[0], rest);
      Insert(es[0], rest)
  }

  /** The earliest entry of largest count. */
  ghost function FirstMaxIndex(es: seq<Entry>): (k: nat)
    requires es != []
    ensures k < |es|
    ensures forall i :: 0 <= i < |es| ==> es[i].count <= es[k].count
    ensures forall i :: 0 <= i < k ==> es[i].count < es[k].count
  {
    if |es| == 1 then 0
    else
      var k := FirstMaxIndex(es[1..]);
      assert forall i :: 1 <= i < |es| ==> es[i] == es[1..][i - 1];
      if es[0].count >= es[k + 1].count then 0 else k + 1
  }

  /** The head of the stable descending sort is the earliest entry of largest count. */
  lemma {:induction false} SortHeadIsFirstMaximum(es: seq<Entry>)
    requires es != []
    ensures SortByCountDesc(es)[0] == es[FirstMaxIndex(es)]
  {
    if |es| > 1 {
      SortHeadIsFirstMaximum(es[1..]);
    }
  }

  /** `mostCommonGenre`: the first entry after the sort, absent when there are no entries. */
  function MostCommonGenre(history: seq<Classification>): (r: Option<string>)
    ensures r.Some? ==> r.value in GenreCounts(history).keys
  {
    var entries := Entries(GenreCounts(history));
    var sorted := SortByCountDesc(entries);
    if sorted == [] then None
    else
      assert sorted[0] in multiset(entries);
      Some(sorted[0].genre)
  }

  /** The panel shows "N/A" exactly when the history is empty. */
  lemma MostCommonAbsentIffEmpty(history: seq<Classification>)
    ensures MostCommonGenre(history).None? <==> history == []
  {
    if history != [] {
      var t := GenreCounts(history);
      CountOfPositive(history, history[0].genre);
      assert history[0].genre in GenresIn(history);
      assert history[0].genre in t.keys;
    }
  }

  /** The entry that `mostCommonGenre` takes and where it sits among the keys. */
  lemma MostCommonIsKey(history: seq<Classification>)
    requires MostCommonGenre(history).Some?
    ensures var t := GenreCounts(history);
            var es := Entries(t);
            && es != []
            && MostCommonGenre(history).value == t.keys[FirstMaxIndex(es)]
            && CountOf(history, t.keys[FirstMaxIndex(es)]) == es[FirstMaxIndex(es)].count
  {
    var es := Entries(GenreCounts(history));
    SortHeadIsFirstMaximum(es);
  }

  /** The most common genre occurs, and no genre occurs more often. */
  lemma MostCommonIsMaximal(history: seq<Classification>)
    requires MostCommonGenre(history).Some?
    ensures CountOf(history, MostCommonGenre(history).value) > 0
    ensures forall g :: CountOf(history, g) <= CountOf(history, MostCommonGenre(history).value)
  {
    var t := GenreCounts(history);
    var es := Entries(t);
    MostCommonIsKey(history);
    var k := FirstMaxIndex(es);
    forall g | CountOf(history, g) > 0 ensures CountOf(history, g) <= es[k].count {
      assert g in t.keys;
      var i :| 0 <= i < |t.keys| && t.keys[i] == g;
      assert es[i].count == CountOf(history, g);
    }
  }

  /**
   Ties go to the genre whose first occurrence in the history is earliest,
   because the keys keep first-occurrence order and the sort is stable.
   */
  lemma MostCommonTieBreak(history: seq<Classification>)
    requires MostCommonGenre(history).Some?
    ensures CountOf(history, MostCommonGenre(history).value) > 0
    ensures forall g :: CountOf(history, g) == CountOf(history, MostCommonGenre(history).value) ==>
              FirstIndex(history, MostCommonGenre(history).value) <= FirstIndex(history, g)
  {
    var t := GenreCounts(history);
    var es := Entries(t);
    MostCommonIsKey(history);
    KeysInFirstOccurrenceOrder(history);
    var k := FirstMaxIndex(es);
    var best := t.keys[k];
    assert CountOf(history, best) > 0;
    forall g | CountOf(history, g) == CountOf(history, best)
      ensures FirstIndex(history, best) <= FirstIndex(history, g)
    {
      assert g in t.keys;
      var i :| 0 <= i < |t.keys| && t.keys[i] == g;
      assert es[i].count == es[k].count;
      assert k <= i;
      if k < i {
        assert FirstIndex(history, t.keys[k]) < FirstIndex(history, t.keys[i]);
      }
    }
  }

  /* ---------- Unique genres ---------- */

  /** `Object.keys(genreCounts).length || 0`: never more than the number of records. */
  function UniqueGenreCount(history: seq<Classification>): (n: nat)
    ensures n <= Total(history)
  {
    KeysAtMostTotal(history);
    |GenreCounts(history).count|
  }

  /** Each step of the fold adds at most one key. */
  lemma {:induction false} KeysAtMostTotal(history: seq<Classification>)
    ensures |GenreCounts(history).count| <= |history|
  {
    if history != [] {
      KeysAtMostTotal(history[..|history| - 1]);
    }
  }

  /** The unique-genre figure is the number of distinct genres, zero exactly for an empty history. */
  lemma UniqueGenreCountIsDistinctGenres(history: seq<Classification>)
    ensures UniqueGenreCount(history) == |GenresIn(history)|
    ensures UniqueGenreCount(history) == 0 <==> history == []
  {
    var t := GenreCounts(history);
    forall g ensures g in t.count <==> g in GenresIn(history) {
      CountOfPositive(history, g);
    }
    assert t.count.Keys == GenresIn(history);
    if history != [] {
      assert history[0].genre in GenresIn(history);
    }
  }

  /** Two "Rock" records and one "Jazz" record: Rock is counted twice and is the most common of two genres. */
  lemma RockRockJazzScenario(jazz: Classification, rock1: Classification, rock2: Classification)
    requires jazz.genre == "Jazz" && rock1.genre == "Rock" && rock2.genre == "Rock"
    ensures GenreCounts([jazz, rock1, rock2]).count == map["Jazz" := 1, "Rock" := 2]
    ensures MostCommonGenre([jazz, rock1, rock2]) == Some("Rock")
    ensures UniqueGenreCount([jazz, rock1, rock2]) == 2
  {
    var h := [jazz, rock1, rock2];
    assert "Jazz" != "Rock";
    forall g ensures CountOf(h, g) == (if g == "Jazz" then 1 else 0) + (if g == "Rock" then 2 else 0) {
      assert h[1..] == [rock1, rock2] && h[1..][1..] == [rock2] && h[1..][1..][1..] == [];
      assert CountOf([rock2], g) == (if g == "Rock" then 1 else 0);
      assert CountOf([rock1, rock2], g) == (if g == "Rock" then 2 else 0);
    }
    var t := GenreCounts(h);
    assert t.count == map["Jazz" := 1, "Rock" := 2];
    MostCommonAbsentIffEmpty(h);
    MostCommonIsMaximal(h);
    var best := MostCommonGenre(h).value;
    assert CountOf(h, "Rock") == 2 && CountOf(h, "Rock") <= CountOf(h, best);
  }
}
