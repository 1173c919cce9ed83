/**
 * The integer core of git.py: the per-language byte totals that
 * `fetch_language_stats` builds from one GitHub `/languages` reply per
 * repository, the empty-result and division rules around them, and the
 * 0..50 relevance score of `calculate_github_score`. The HTTP requests are
 * inputs: one `LangReply` per repository name, in the order of the names.
 */
module Github {
  import opened Wrappers
  import opened Strings
  import opened Selection

  // ------------------------------------------------------------ replies

  /**
   * What one `/languages` request produced: either the request or the JSON
   * decoding raised (the loop's `except Exception: continue`), or a reply
   * with its status code and, for a JSON object, the `data.items()` pairs
   * of language name and byte count.
   */
  datatype LangReply =
    | Raised
    | Answered(status: int, items: seq<(string, nat)>)

  /** Only a reply with status 200 is read. */
  predicate Counted(r: LangReply) {
    r.Answered? && r.status == 200
  }

  /** The pairs a reply contributes to the totals. */
  function ReadItems(r: LangReply): (items: seq<(string, nat)>)
    ensures !Counted(r) ==> items == []
  {
    if Counted(r) then r.items else []
  }

  /** All pairs read, reply after reply, in the order the loop visits them. */
  function AllItems(rs: seq<LangReply>): seq<(string, nat)>
    decreases |rs|
  {
    if |rs| == 0 then [] else AllItems(rs[..|rs| - 1]) + ReadItems(rs[|rs| - 1])
  }

  // ------------------------------------------------------------ reference totals

  /** The sum of the byte counts paired with `lang`. */
  function BytesFor(items: seq<(string, nat)>, lang: string): nat
    decreases |items|
  {
    if |items| == 0 then 0
    else BytesFor(items[..|items| - 1], lang) + (if items[|items| - 1].0 == lang then items[|items| - 1].1 else 0)
  }

  /** The sum of all byte counts, `sum(raw_languages.values())`. */
  function TotalBytes(items: seq<(string, nat)>): nat
    decreases |items|
  {
    if |items| == 0 then 0 else TotalBytes(items[..|items| - 1]) + items[|items| - 1].1
  }

  /** Every language named by some pair. */
  function Languages(items: seq<(string, nat)>): set<string> {
    set i | 0 <= i < |items| :: items[i].0
  }

  /** `raw_languages` as a definition: each named language with its byte sum. */
  function Totals(items: seq<(string, nat)>): (m: map<string, nat>)
    ensures m.Keys == Languages(items)
    ensures forall lang :: lang in m ==> m[lang] == BytesFor(items, lang)
  {
    map lang | lang in Languages(items) :: BytesFor(items, lang)
  }

  /** `raw_languages.get(lang, 0)`. */
  function Get(m: map<string, nat>, lang: string): nat {
    if lang in m then m[lang] else 0
  }

  // ------------------------------------------------------------ the aggregation loop

  /** One pair more adds its count to its language and leaves the rest alone. */
  lemma {:induction false} TotalsSnoc(items: seq<(string, nat)>, p: (string, nat))
    ensures Totals(items + [p]) == Totals(items)[p.0 := Get(Totals(items), p.0) + p.1]
  {
    var xs := items + [p];
    assert xs[..|xs| - 1] == items;
    assert Languages(xs) == Languages(items) + {p.0} by {
      forall lang | lang in Languages(xs) ensures lang in Languages(items) + {p.0} {
        var i :| 0 <= i < |xs| && xs[i].0 == lang;
        if i < |items| { assert items[i].0 == lang; }
      }
      forall lang | lang in Languages(items) ensures lang in Languages(xs) {
        var i :| 0 <= i < |items| && items[i].0 == lang;
        assert xs[i].0 == lang;
      }
      assert xs[|items|].0 == p.0;
    }
    if p.0 !in Languages(items) {
      assert BytesFor(items, p.0) == 0 by { BytesForAbsent(items, p.0); }
    }
  }

  /** A language no pair names has no bytes. */
  lemma {:induction false} BytesForAbsent(items: seq<(string, nat)>, lang: string)
    requires lang !in Languages(items)
    ensures BytesFor(items, lang) == 0
    decreases |items|
  {
    if |items| > 0 {
      var init := items[..|items| - 1];
      assert Languages(init) <= Languages(items) by {
        forall l | l in Languages(init) ensures l in Languages(items) {
          var i :| 0 <= i < |init| && init[i].0 == l;
          assert items[i].0 == l;
        }
      }
      assert items[|items| - 1].0 in Languages(items);
      BytesForAbsent(init, lang);
    }
  }

  /** The replies read so far, one more appended. */
  lemma AllItemsSnoc(rs: seq<LangReply>, i: nat)
    requires i < |rs|
    ensures AllItems(rs[..i + 1]) == AllItems(rs[..i]) + ReadItems(rs[i])
  {
    assert rs[..i + 1][..i] == rs[..i];
  }

  /**
   * The loop of `fetch_language_stats`: for every reply with status 200,
   * `raw_languages[lang] = raw_languages.get(lang, 0) + bytes_count` for
   * each pair. The result is the reference `Totals` of everything read.
   */
  method AggregateBytes(replies: seq<LangReply>) returns (totals: map<string, nat>)
    ensures totals == Totals(AllItems(replies))
  {
    totals := map[];
    var i := 0;
    while i < |replies|
      invariant 0 <= i <= |replies|
      invariant totals == Totals(AllItems(replies[..i]))
    {
      var done := AllItems(replies[..i]);
      var items := ReadItems(replies[i]);
      var j := 0;
      assert done + items[..0] == done;
      while j < |items|
        invariant 0 <= j <= |items|
        invariant totals == Totals(done + items[..j])
      {
        var (lang, count) := items[j];
        TotalsSnoc(done + items[..j], items[j]);
        assert done + items[..j + 1] == (done + items[..j]) + [items[j]];
        totals := totals[lang := Get(totals, lang) + count];
        j := j + 1;
      }
      assert items[..j] == items;
      AllItemsSnoc(replies, i);
      i := i + 1;
    }
    assert replies[..i] == replies;
  }

  // ------------------------------------------------------------ totals per repository

  /** Byte counts for `lang` summed reply by reply, counting only replies with status 200. */
  function RepoBytes(rs: seq<LangReply>, lang: string): nat
    decreases |rs|
  {
    if |rs| == 0 then 0
    else RepoBytes(rs[..|rs| - 1], lang) + (if Counted(rs[|rs| - 1]) then BytesFor(rs[|rs| - 1].items, lang) else 0)
  }

  /** Summing over a concatenation sums the two parts. */
  lemma {:induction false} BytesForAppend(a: seq<(string, nat)>, b: seq<(string, nat)>, lang: string)
    ensures BytesFor(a + b, lang) == BytesFor(a, lang) + BytesFor(b, lang)
    decreases |b|
  {
    if |b| == 0 {
      assert a + b == a;
    } else {
      var b' := b[..|b| - 1];
      assert (a + b)[..|a + b| - 1] == a + b';
      assert (a + b)[|a + b| - 1] == b[|b| - 1];
      BytesForAppend(a, b', lang);
    }
  }

  /**
   * Each language's total is the sum of its byte counts over the replies
   * with status 200; a failed request or another status contributes nothing.
   */
  lemma {:induction false} TotalsPerRepo(rs: seq<LangReply>, lang: string)
    ensures BytesFor(AllItems(rs), lang) == RepoBytes(rs, lang)
    decreases |rs|
  {
    if |rs| > 0 {
      var init := rs[..|rs| - 1];
      TotalsPerRepo(init, lang);
      BytesForAppend(AllItems(init), ReadItems(rs[|rs| - 1]), lang);
    }
  }

  /** A reply that raised or did not answer 200 leaves the totals as they were. */
  lemma FailedReplyIgnored(rs: seq<LangReply>, r: LangReply)
    requires !Counted(r)
    ensures Totals(AllItems(rs + [r])) == Totals(AllItems(rs))
  {
    var rs' := rs + [r];
    assert rs'[..|rs'| - 1] == rs;
    assert AllItems(rs') == AllItems(rs) + ReadItems(r);
    assert AllItems(rs') == AllItems(rs);
  }

  // ------------------------------------------------------------ fetch_language_stats

  /** `total_bytes` is zero exactly when every language's total is zero. */
  lemma {:induction false} ZeroTotalIffZeroLanguages(items: seq<(string, nat)>)
    ensures TotalBytes(items) == 0 <==> forall lang :: lang in Languages(items) ==> BytesFor(items, lang) == 0
    decreases |items|
  {
    if |items| > 0 {
      var init := items[..|items| - 1];
      var p := items[|items| - 1];
      ZeroTotalIffZeroLanguages(init);
      assert p.0 in Languages(items);
      forall lang | lang in Languages(init)
        ensures lang in Languages(items) && BytesFor(init, lang) <= BytesFor(items, lang)
      {
        var i :| 0 <= i < |init| && init[i].0 == lang;
        assert items[i].0 == lang;
      }
      if TotalBytes(items) == 0 {
        forall lang | lang in Languages(items) ensures BytesFor(items, lang) == 0 {
          BytesForBounded(items, lang);
        }
      }
    }
  }

  /** No language has more bytes than all languages together. */
  lemma {:induction false} BytesForBounded(items: seq<(string, nat)>, lang: string)
    ensures BytesFor(items, lang) <= TotalBytes(items)
    decreases |items|
  {
    if |items| > 0 {
      BytesForBounded(items[..|items| - 1], lang);
    }
  }

  const DivisionByZero: string := "division by zero"

  /**
   * `fetch_language_stats` given the replies for the user's repositories:
   * no repositories or no language collected gives the empty dictionary;
   * languages whose byte counts are all zero make `v / total_bytes` raise;
   * otherwise every collected language maps to its share of all bytes in
   * percent.
   */
  function FetchLanguageStats(replies: seq<LangReply>): (r: Result<map<string, real>>)
    ensures |replies| == 0 ==> r == Success(map[])
    ensures r == Success(map[]) <==> Totals(AllItems(replies)) == map[]
    ensures r.Failure? <==>
              Totals(AllItems(replies)) != map[]
              && forall lang :: lang in Totals(AllItems(replies)) ==> Totals(AllItems(replies))[lang] == 0
    ensures r.Success? ==> r.value.Keys == Totals(AllItems(replies)).Keys
    ensures r.Success? ==> forall lang :: lang in r.value ==> 0.0 <= r.value[lang] <= 100.0
  {
    if |replies| == 0 then Success(map[])
    else
      var items := AllItems(replies);
      var totals := Totals(items);
      if totals == map[] then Success(map[])
      else
        var total := TotalBytes(items);
        ZeroTotalIffZeroLanguages(items);
        if total == 0 then Failure(DivisionByZero)
        else
          var pct := map lang | lang in totals :: Share(totals[lang], total);
          assert forall lang :: lang in pct ==> 0.0 <= pct[lang] <= 100.0 by {
            forall lang | lang in pct ensures 0.0 <= pct[lang] <= 100.0 {
              BytesForBounded(items, lang);
            }
          }
          assert pct != map[] by {
            var lang :| lang in totals;
            assert lang in pct;
          }
          Success(pct)
  }

  /** `(v / total_bytes) * 100`, without the rounding to two decimals. */
  function Share(v: nat, total: nat): (r: real)
    requires 0 < total
    ensures v <= total ==> 0.0 <= r <= 100.0
  {
    ShareBounded(v, total);
    (v as real) / (total as real) * 100.0
  }

  lemma ShareBounded(v: nat, total: nat)
    requires 0 < total
    ensures v <= total ==> 0.0 <= (v as real) / (total as real) <= 1.0
  {
    if v <= total {
      var q := (v as real) / (total as real);
      assert q * (total as real) == v as real;
    }
  }

  // ------------------------------------------------------------ calculate_github_score

  /** The languages whose lower-case name occurs in the lower-case job description. */
  function Matching(langs: set<string>, jd: string): (r: set<string>)
    ensures r <= langs
  {
    set lang | lang in langs && Contains(Lower(jd), Lower(lang))
  }

  /**
   * The score of a non-empty `stats`: two points per language up to 20,
   * ten per language named in the job description up to 30; an empty
   * `stats` scores 0.
   */
  function GithubScore(langs: set<string>, jd: string): (r: nat)
    ensures langs == {} ==> r == 0
    ensures r <= 50
    ensures langs != {} ==> 2 <= r
    ensures r % 2 == 0
  {
    if langs == {} then 0
    else
      var base := Min(20, 2 * |langs|);
      var bonus := Min(30, 10 * |Matching(langs, jd)|);
      base + bonus
  }

  /**
   * `sum(1 for lang in stats if lang.lower() in jd_lower)`, counting one
   * language at a time.
   */
  method CountMatches(langs: set<string>, jd: string) returns (n: nat)
    ensures n == |Matching(langs, jd)|
  {
    var jdLower := Lower(jd);
    n := 0;
    var todo := langs;
    while todo != {}
      invariant todo <= langs
      invariant n == |Matching(langs - todo, jd)|
      decreases |todo|
    {
      var lang :| lang in todo;
      var before := langs - todo;
      if Contains(jdLower, Lower(lang)) {
        assert Matching(before + {lang}, jd) == Matching(before, jd) + {lang};
        n := n + 1;
      } else {
        assert Matching(before + {lang}, jd) == Matching(before, jd);
      }
      assert langs - (todo - {lang}) == before + {lang};
      todo := todo - {lang};
    }
    assert langs - todo == langs;
  }

  /** More languages, or more of them named in the job description, never lower the score. */
  lemma ScoreMonotone(a: set<string>, b: set<string>, jd: string)
    requires a <= b
    ensures GithubScore(a, jd) <= GithubScore(b, jd)
  {
    if a != {} {
      assert Matching(a, jd) <= Matching(b, jd);
      SubsetCard(Matching(a, jd), Matching(b, jd));
      SubsetCard(a, b);
    }
  }

  lemma SubsetCard<T>(a: set<T>, b: set<T>)
    requires a <= b
    ensures |a| <= |b|
  {
    assert b == a + (b - a);
  }

  /** A job description naming none of the languages earns only the diversity points. */
  lemma NoMatchScoresBaseOnly(langs: set<string>, jd: string)
    requires langs != {}
    requires forall lang :: lang in langs ==> !Contains(Lower(jd), Lower(lang))
    ensures GithubScore(langs, jd) == Min(20, 2 * |langs|)
  {
    assert Matching(langs, jd) == {};
  }

  /** Ten languages, three of them named, reach the maximum of 50. */
  lemma FullMarks(langs: set<string>, jd: string)
    requires |langs| >= 10 && |Matching(langs, jd)| >= 3
    ensures GithubScore(langs, jd) == 50
  {
  }

  /**
   * `calculate_github_score`: an exception while fetching (the division by
   * zero) propagates; otherwise the score of the languages fetched, 0 when
   * none were.
   */
  function CalculateGithubScore(replies: seq<LangReply>, jd: string): (r: Result<nat>)
    ensures r.Failure? <==> FetchLanguageStats(replies).Failure?
    ensures r.Success? ==> r.value == GithubScore(Totals(AllItems(replies)).Keys, jd)
    ensures r.Success? ==> r.value <= 50
    ensures Totals(AllItems(replies)) == map[] ==> r == Success(0)
  {
    match FetchLanguageStats(replies)
    case Failure(e) => Failure(e)
    case Success(stats) => Success(GithubScore(stats.Keys, jd))
  }
}
