/**
 The language-statistics engine of cloc/cloc.py: per-language counter records,
 the in-place merge of one repository's counts into a running aggregate, the
 fold of that merge over every repository, the removal of the counter tool's
 metadata keys, and the share of code lines per language.
 */
module Cloc {
  import opened Wrappers

  /** One counter record as the JSON decoder hands it over: integer fields by key. */
  type Record = map<string, nat>

  /** Lang_Stat: one language's counts within one repository. */
  datatype LangStat = LangStat(nFiles: nat, blank: nat, comment: nat, code: nat)

  /** Repo_Stat: a Lang_Stat plus the number of repositories it was summed over. */
  datatype RepoStat = RepoStat(nFiles: nat, blank: nat, comment: nat, code: nat, repos: nat)

  /** Lang_Stats: language name to counts, for one repository. */
  type LangStats = map<string, LangStat>

  /** The contents of a Repo_Stats dictionary: language name to aggregated counts. */
  type RepoStatMap = map<string, RepoStat>

  datatype Error =
    | MissingKey(key: string)   // KeyError: a `del` or a field read of a key that is not there
    | MalformedRecord           // some language record lacks a field; which one depends on dict order
    | DivisionByZero            // a language is present but no code lines were counted

  /** The four fields that Lang_Stat reads from a record. */
  const LangFields: set<string> := {"nFiles", "blank", "comment", "code"}

  /** The order in which Lang_Stat.__init__ reads them, then the extra field of Repo_Stat. */
  const ReadOrder: seq<string> := ["nFiles", "blank", "comment", "code", "repos"]

  /**
   The KeyError of reading `ReadOrder[..n]` in order from `data`: it names the
   first of those fields that is absent.
   */
  predicate FirstMissing(data: Record, n: nat, e: Error)
    requires n <= |ReadOrder|
  {
    exists i :: 0 <= i < n && e == MissingKey(ReadOrder[i]) && ReadOrder[i] !in data &&
                forall j :: 0 <= j < i ==> ReadOrder[j] in data
  }

  /** The record a Lang_Stat is read from; the inverse of LangStatFromRecord. */
  function LangRecord(s: LangStat): Record
  {
    map["nFiles" := s.nFiles, "blank" := s.blank, "comment" := s.comment, "code" := s.code]
  }

  /** The record a Repo_Stat is read from (the dictionary built by Repo_Stat.__add__). */
  function RepoRecord(s: RepoStat): Record
  {
    map["nFiles" := s.nFiles, "blank" := s.blank, "comment" := s.comment, "code" := s.code,
        "repos" := s.repos]
  }

  /** Lang_Stat.__init__: read the four fields in order; the first missing one raises KeyError. */
  function LangStatFromRecord(data: Record): (r: Result<LangStat, Error>)
    ensures r.Ok? <==> LangFields <= data.Keys
    ensures r.Ok? ==> forall f :: f in LangFields ==> LangRecord(r.value)[f] == data[f]
    ensures r.Err? ==> FirstMissing(data, 4, r.error)
  {
    assert ReadOrder[0] == "nFiles" && ReadOrder[1] == "blank" && ReadOrder[2] == "comment" &&
           ReadOrder[3] == "code";
    if "nFiles" !in data then Err(MissingKey("nFiles"))
    else if "blank" !in data then Err(MissingKey("blank"))
    else if "comment" !in data then Err(MissingKey("comment"))
    else if "code" !in data then Err(MissingKey("code"))
    else Ok(LangStat(data["nFiles"], data["blank"], data["comment"], data["code"]))
  }

  /** Repo_Stat.__init__ on a dictionary: the four Lang_Stat fields, then `repos`. */
  function RepoStatFromRecord(data: Record): (r: Result<RepoStat, Error>)
    ensures r.Ok? <==> LangFields + {"repos"} <= data.Keys
    ensures r.Ok? ==> forall f :: f in LangFields + {"repos"} ==> RepoRecord(r.value)[f] == data[f]
    ensures r.Err? ==> FirstMissing(data, 5, r.error)
  {
    match LangStatFromRecord(data)
    case Err(e) => Err(e)
    case Ok(s) =>
      if "repos" in data then Ok(RepoStat(s.nFiles, s.blank, s.comment, s.code, data["repos"]))
      else
        assert ReadOrder[4] == "repos" && forall j :: 0 <= j < 4 ==> ReadOrder[j] in LangFields;
        Err(MissingKey("repos"))
  }

  /** Reading back the record written from a value gives that value. */
  lemma LangRecordRoundTrip(s: LangStat)
    ensures LangStatFromRecord(LangRecord(s)) == Ok(s)
  {
  }

  lemma RepoRecordRoundTrip(s: RepoStat)
    ensures RepoStatFromRecord(RepoRecord(s)) == Ok(s)
  {
  }

  /** The Lang_Stat fields of a Repo_Stat. */
  function Counts(s: RepoStat): LangStat
  {
    LangStat(s.nFiles, s.blank, s.comment, s.code)
  }

  /** Repo_Stat.__init__ on a Lang_Stat: the first sighting of a language. */
  function FromLangStat(s: LangStat): (r: RepoStat)
    ensures Counts(r) == s && r.repos == 1
  {
    RepoStat(s.nFiles, s.blank, s.comment, s.code, 1)
  }

  /** Repo_Stat.__add__: all five fields summed. */
  function Add(a: RepoStat, b: RepoStat): RepoStat
  {
    RepoStat(a.nFiles + b.nFiles, a.blank + b.blank, a.comment + b.comment, a.code + b.code,
             a.repos + b.repos)
  }

  /** Repo_Stat.__add__ builds a dictionary and reads it back through the dictionary constructor. */
  lemma AddThroughRecord(a: RepoStat, b: RepoStat)
    ensures RepoStatFromRecord(RepoRecord(Add(a, b))) == Ok(Add(a, b))
    ensures Counts(Add(a, b)).code == a.code + b.code && Add(a, b).repos == a.repos + b.repos
  {
  }

  /** The all-zero count; the neutral element of Add. */
  function Zero(): RepoStat
  {
    RepoStat(0, 0, 0, 0, 0)
  }

  lemma AddCommutative(a: RepoStat, b: RepoStat)
    ensures Add(a, b) == Add(b, a)
  {
  }

  lemma AddAssociative(a: RepoStat, b: RepoStat, c: RepoStat)
    ensures Add(Add(a, b), c) == Add(a, Add(b, c))
  {
  }

  lemma AddZero(a: RepoStat)
    ensures Add(a, Zero()) == a && Add(Zero(), a) == a
  {
  }

  /** Lang_Stats.__init__: every record converted; one malformed record fails the whole map. */
  function LangStatsFromRaw(raw: map<string, Record>): (r: Option<LangStats>)
    ensures r.Some? <==> forall k :: k in raw ==> LangStatFromRecord(raw[k]).Ok?
    ensures r.Some? ==> r.value.Keys == raw.Keys
    ensures r.Some? ==> forall k :: k in r.value ==> LangStatFromRecord(raw[k]) == Ok(r.value[k])
  {
    if forall k :: k in raw ==> LangStatFromRecord(raw[k]).Ok? then
      Some(map k | k in raw :: LangStatFromRecord(raw[k]).value)
    else
      None
  }

  /** Repo_Stats.__init__: every language wrapped as a first sighting. */
  function Promote(init: LangStats): (r: RepoStatMap)
    ensures r.Keys == init.Keys
    ensures forall k :: k in r ==> Counts(r[k]) == init[k] && r[k].repos == 1
  {
    map k | k in init :: FromLangStat(init[k])
  }

  /** What `stats += other` stores under a language of `other`. */
  function MergedEntry(acc: RepoStatMap, other: LangStats, k: string): RepoStat
    requires k in other
  {
    if k in acc then Add(acc[k], FromLangStat(other[k])) else FromLangStat(other[k])
  }

  /** The whole dictionary after `acc += other` (Repo_Stats.__iadd__). */
  function Merge(acc: RepoStatMap, other: LangStats): (r: RepoStatMap)
    ensures r.Keys == acc.Keys + other.Keys
    ensures forall k :: k in acc && k !in other ==> r[k] == acc[k]
  {
    map k | k in acc.Keys + other.Keys :: if k in other then MergedEntry(acc, other, k) else acc[k]
  }

  /** Building a Repo_Stats from a Lang_Stats is the same as merging it into an empty one. */
  lemma PromoteIsMergeIntoEmpty(init: LangStats)
    ensures Promote(init) == Merge(map[], init)
  {
  }

  /**
   count_lang_repos without the directory walk: the merge of every repository's
   counts, in listing order, into an initially empty aggregate.
   */
  function Fold(repos: seq<LangStats>): RepoStatMap
    decreases |repos|
  {
    if repos == [] then map[] else Merge(Fold(repos[..|repos| - 1]), repos[|repos| - 1])
  }

  /** A Repo_Stats dictionary, updated in place by `+=`. */
  class RepoStats {
    var stats: RepoStatMap

    /** Repo_Stats(init_val) */
    constructor (init: LangStats)
      ensures stats == Promote(init)
    {
      stats := map k | k in init :: FromLangStat(init[k]);
    }

    /** Repo_Stats.__iadd__: merge one repository's counts into this aggregate. */
    method AddAssign(other: LangStats)
      modifies this
      ensures stats == Merge(old(stats), other)
      ensures stats.Keys == old(stats).Keys + other.Keys
      ensures forall k :: k in old(stats) && k !in other ==> stats[k] == old(stats)[k]
      ensures forall k :: k in other && k !in old(stats) ==> stats[k] == FromLangStat(other[k])
      ensures forall k :: k in other && k in old(stats) ==>
                stats[k] == Add(old(stats)[k], FromLangStat(other[k]))
    {
      var remaining := other.Keys;
      while remaining != {}
        invariant remaining <= other.Keys
        invariant stats.Keys == old(stats).Keys + (other.Keys - remaining)
        invariant forall k :: k in stats ==>
                    stats[k] == if k in other && k !in remaining then MergedEntry(old(stats), other, k)
                                else old(stats)[k]
        decreases remaining
      {
        var language :| language in remaining;
        if language !in stats {
          stats := stats[language := FromLangStat(other[language])];
        } else {
          stats := stats[language := Add(stats[language], FromLangStat(other[language]))];
        }
        remaining := remaining - {language};
      }
      assert stats == Merge(old(stats), other);
    }
  }

  /**
   count_lang_repos: start from Repo_Stats(Lang_Stats({})) and `+=` every
   repository's counts. The directory listing and the counter tool are
   abstracted: `repos` holds what parse_lines returned for each directory.
   */
  method CountLangRepos(repos: seq<LangStats>) returns (counts: RepoStats)
    ensures fresh(counts)
    ensures counts.stats == Fold(repos)
    ensures repos == [] ==> counts.stats == map[]
  {
    counts := new RepoStats(map[]);
    for i := 0 to |repos|
      invariant counts.stats == Fold(repos[..i])
    {
      assert repos[..i + 1][..i] == repos[..i];
      counts.AddAssign(repos[i]);
    }
    assert repos[..|repos|] == repos;
  }

  // ---------------------------------------------------------------------------
  // What the fold computes

  /** What one repository contributes to a language's aggregate. */
  function Contribution(m: LangStats, language: string): (r: RepoStat)
    ensures r.repos == if language in m then 1 else 0
  {
    if language in m then FromLangStat(m[language]) else Zero()
  }

  /** Reference definition: the field-wise sum of every repository's contribution. */
  function Total(repos: seq<LangStats>, language: string): RepoStat
    decreases |repos|
  {
    if repos == [] then Zero()
    else Add(Total(repos[..|repos| - 1], language), Contribution(repos[|repos| - 1], language))
  }

  /** The positions of the repositories whose counts contain `language`. */
  ghost function Holders(repos: seq<LangStats>, language: string): set<int>
  {
    set i | 0 <= i < |repos| && language in repos[i]
  }

  /** One step of FoldKeys: merging the last repository adds exactly its languages. */
  lemma FoldKeysStep(repos: seq<LangStats>, prefix: seq<LangStats>, language: string)
    requires repos != [] && prefix == repos[..|repos| - 1]
    requires language in Fold(prefix) <==> exists i :: 0 <= i < |prefix| && language in prefix[i]
    ensures language in Fold(repos) <==> exists i :: 0 <= i < |repos| && language in repos[i]
  {
    var n := |repos| - 1;
    assert Fold(repos).Keys == Fold(prefix).Keys + repos[n].Keys;
    if language in Fold(repos) && language !in repos[n] {
      var i :| 0 <= i < n && language in prefix[i];
      assert repos[i] == prefix[i];
    }
    if exists i :: 0 <= i < |repos| && language in repos[i] {
      var i :| 0 <= i < |repos| && language in repos[i];
      if i < n {
        assert prefix[i] == repos[i];
      }
    }
  }

  /** The aggregate's languages are exactly the union of the repositories' languages. */
  lemma {:induction false} FoldKeys(repos: seq<LangStats>)
    ensures forall language :: language in Fold(repos) <==>
              exists i :: 0 <= i < |repos| && language in repos[i]
    decreases |repos|
  {
    if repos != [] {
      FoldKeys(repos[..|repos| - 1]);
      forall language
        ensures language in Fold(repos) <==> exists i :: 0 <= i < |repos| && language in repos[i]
      {
        FoldKeysStep(repos, repos[..|repos| - 1], language);
      }
    }
  }

  /** A language no repository mentions totals zero. */
  lemma {:induction false} TotalAbsent(repos: seq<LangStats>, language: string)
    requires forall m :: m in repos ==> language !in m
    ensures Total(repos, language) == Zero()
    decreases |repos|
  {
    if repos != [] {
      var n := |repos| - 1;
      var prefix := repos[..n];
      assert language !in repos[n] by { assert repos[n] in repos; }
      assert forall m :: m in prefix ==> language !in m by {
        forall m | m in prefix ensures language !in m {
          var i :| 0 <= i < n && prefix[i] == m;
          assert repos[i] == m;
        }
      }
      TotalAbsent(prefix, language);
      assert Contribution(repos[n], language) == Zero();
      AddZero(Total(prefix, language));
    }
  }

  /** Each aggregate entry is the field-wise sum over the repositories that contain the language. */
  lemma {:induction false} FoldEntry(repos: seq<LangStats>, language: string)
    requires language in Fold(repos)
    ensures Fold(repos)[language] == Total(repos, language)
    decreases |repos|
  {
    var n := |repos| - 1;
    var prefix := repos[..n];
    var last := repos[n];
    if language in Fold(prefix) {
      FoldEntry(prefix, language);
      if language !in last {
        AddZero(Total(prefix, language));
      }
    } else {
      FoldKeys(prefix);
      forall m | m in prefix
        ensures language !in m
      {
        var i :| 0 <= i < |prefix| && prefix[i] == m;
      }
      TotalAbsent(prefix, language);
      AddZero(Contribution(last, language));
    }
  }

  /** The occurrence count of a total is the number of repositories holding the language. */
  lemma {:induction false} TotalRepos(repos: seq<LangStats>, language: string)
    ensures Total(repos, language).repos == |Holders(repos, language)|
    decreases |repos|
  {
    if repos == [] {
      assert Holders(repos, language) == {};
    } else {
      var n := |repos| - 1;
      var prefix := repos[..n];
      TotalRepos(prefix, language);
      var before := Holders(prefix, language);
      assert before == set i | 0 <= i < n && language in repos[i];
      if language in repos[n] {
        assert Holders(repos, language) == before + {n};
        assert n !in before;
      } else {
        assert Holders(repos, language) == before;
      }
    }
  }

  /**
   Occurrence counting and additivity: a language's aggregate counts, once per
   repository that contains it, how many repositories mention it, and sums
   their four counters.
   */
  lemma FoldCounts(repos: seq<LangStats>, language: string)
    requires language in Fold(repos)
    ensures Fold(repos)[language].repos == |Holders(repos, language)| >= 1
    ensures Fold(repos)[language] == Total(repos, language)
  {
    FoldEntry(repos, language);
    TotalRepos(repos, language);
    FoldKeys(repos);
    var i :| 0 <= i < |repos| && language in repos[i];
    assert i in Holders(repos, language);
  }

  lemma {:induction false} TotalConcat(a: seq<LangStats>, b: seq<LangStats>, language: string)
    ensures Total(a + b, language) == Add(Total(a, language), Total(b, language))
    decreases |b|
  {
    if b == [] {
      assert a + b == a;
      AddZero(Total(a, language));
    } else {
      var n := |b| - 1;
      assert (a + b)[..|a + b| - 1] == a + b[..n];
      TotalConcat(a, b[..n], language);
      AddAssociative(Total(a, language), Total(b[..n], language), Contribution(b[n], language));
    }
  }

  /** Reordering the repositories does not change any language's total. */
  lemma {:induction false} TotalPermutation(xs: seq<LangStats>, ys: seq<LangStats>, language: string)
    requires multiset(xs) == multiset(ys)
    ensures Total(xs, language) == Total(ys, language)
    decreases |xs|
  {
    if xs == [] {
      assert |ys| == |multiset(ys)| == 0;
    } else {
      var n := |xs| - 1;
      var last := xs[n];
      assert xs == xs[..n] + [last];
      assert last in multiset(ys);
      var j :| 0 <= j < |ys| && ys[j] == last;
      var left, right := ys[..j], ys[j + 1..];
      RemoveAt(ys, j);
      assert multiset(xs[..n]) == multiset(xs) - multiset{last} by {
        assert multiset(xs) == multiset(xs[..n]) + multiset{last};
      }
      TotalPermutation(xs[..n], left + right, language);
      TotalMiddle(left, last, right, language);
    }
  }

  /** Cutting one element out of a listing leaves the other elements, each as often as before. */
  lemma RemoveAt(ys: seq<LangStats>, j: nat)
    requires j < |ys|
    ensures ys == ys[..j] + [ys[j]] + ys[j + 1..]
    ensures multiset(ys[..j] + ys[j + 1..]) == multiset(ys) - multiset{ys[j]}
  {
    var left, right := ys[..j], ys[j + 1..];
    assert ys == left + [ys[j]] + right;
    assert multiset(ys) == multiset(left) + multiset{ys[j]} + multiset(right);
    assert multiset(left + right) == multiset(left) + multiset(right);
  }

  /** Taking one repository out of the middle of the listing takes its contribution out of the total. */
  lemma TotalMiddle(left: seq<LangStats>, x: LangStats, right: seq<LangStats>, language: string)
    ensures Total(left + [x] + right, language) == Add(Total(left + right, language), Contribution(x, language))
  {
    TotalConcat(left + [x], right, language);
    TotalConcat(left, right, language);
    assert (left + [x])[..|left|] == left;
    var l, c, r := Total(left, language), Contribution(x, language), Total(right, language);
    assert Total(left + [x], language) == Add(l, c);
    AddAssociative(l, c, r);
    AddCommutative(c, r);
    AddAssociative(l, r, c);
  }

  /** The aggregate does not depend on the order in which the repositories are listed. */
  lemma FoldPermutation(xs: seq<LangStats>, ys: seq<LangStats>)
    requires multiset(xs) == multiset(ys)
    ensures Fold(xs) == Fold(ys)
  {
    FoldKeys(xs);
    FoldKeys(ys);
    forall language | language in Fold(xs)
      ensures language in Fold(ys)
    {
      var i :| 0 <= i < |xs| && language in xs[i];
      assert xs[i] in multiset(ys);
      var j :| 0 <= j < |ys| && ys[j] == xs[i];
    }
    forall language | language in Fold(ys)
      ensures language in Fold(xs)
    {
      var j :| 0 <= j < |ys| && language in ys[j];
      assert ys[j] in multiset(xs);
      var i :| 0 <= i < |xs| && xs[i] == ys[j];
    }
    forall language | language in Fold(xs)
      ensures Fold(xs)[language] == Fold(ys)[language]
    {
      FoldEntry(xs, language);
      FoldEntry(ys, language);
      TotalPermutation(xs, ys, language);
    }
  }

  // ---------------------------------------------------------------------------
  // parse_lines

  /**
   parse_lines without the process call and the JSON decoder: delete the
   `header` and then the `SUM` entry (each `del` raises KeyError when the key is
   missing) and convert what remains with Lang_Stats.
   */
  function ParseLines(output: map<string, Record>): (r: Result<LangStats, Error>)
    ensures "header" !in output ==> r == Err(MissingKey("header"))
    ensures "header" in output && "SUM" !in output ==> r == Err(MissingKey("SUM"))
    ensures r.Ok? <==> "header" in output && "SUM" in output &&
                       forall k :: k in output && k != "header" && k != "SUM" ==>
                         LangStatFromRecord(output[k]).Ok?
    ensures r.Ok? ==> "header" !in r.value && "SUM" !in r.value
    ensures r.Ok? ==> r.value.Keys == output.Keys - {"header", "SUM"}
    ensures r.Ok? ==> forall k :: k in r.value ==> LangStatFromRecord(output[k]) == Ok(r.value[k])
  {
    if "header" !in output then Err(MissingKey("header"))
    else if "SUM" !in output then Err(MissingKey("SUM"))
    else
      var languages := output - {"header", "SUM"};
      assert forall k :: k in languages ==> languages[k] == output[k];
      match LangStatsFromRaw(languages)
      case None => Err(MalformedRecord)
      case Some(stats) => Ok(stats)
  }

  // ---------------------------------------------------------------------------
  // language_percentage

  /** The sum of the code lines of the languages in `keys`. */
  ghost function SumCode<S>(languages: map<string, S>, code: S -> nat, keys: set<string>): nat
    requires keys <= languages.Keys
    decreases keys
  {
    if keys == {} then 0
    else
      var k :| k in keys;
      code(languages[k]) + SumCode(languages, code, keys - {k})
  }

  /** The sum of the percentages of the languages in `keys`. */
  ghost function SumPercent(percentages: map<string, real>, keys: set<string>): real
    requires keys <= percentages.Keys
    decreases keys
  {
    if keys == {} then 0.0
    else
      var k :| k in keys;
      percentages[k] + SumPercent(percentages, keys - {k})
  }

  /** SumCode does not depend on the order in which the languages are taken. */
  lemma {:induction false} SumCodeRemove<S>(languages: map<string, S>, code: S -> nat, keys: set<string>, k: string)
    requires keys <= languages.Keys && k in keys
    ensures SumCode(languages, code, keys) == code(languages[k]) + SumCode(languages, code, keys - {k})
    decreases keys
  {
    var j :| j in keys && SumCode(languages, code, keys) == code(languages[j]) + SumCode(languages, code, keys - {j});
    if j != k {
      SumCodeRemove(languages, code, keys - {j}, k);
      SumCodeRemove(languages, code, keys - {k}, j);
      assert keys - {j} - {k} == keys - {k} - {j};
    }
  }

  lemma {:induction false} SumPercentRemove(percentages: map<string, real>, keys: set<string>, k: string)
    requires keys <= percentages.Keys && k in keys
    ensures SumPercent(percentages, keys) == percentages[k] + SumPercent(percentages, keys - {k})
    decreases keys
  {
    var j :| j in keys && SumPercent(percentages, keys) == percentages[j] + SumPercent(percentages, keys - {j});
    if j != k {
      SumPercentRemove(percentages, keys - {j}, k);
      SumPercentRemove(percentages, keys - {k}, j);
      assert keys - {j} - {k} == keys - {k} - {j};
    }
  }

  /** The code lines of all languages added together: `lang_sum` in language_percentage. */
  ghost function TotalCode<S>(languages: map<string, S>, code: S -> nat): nat
  {
    SumCode(languages, code, languages.Keys)
  }

  /** `100 * code / lang_sum`, over the reals. */
  function Share(code: nat, total: real): real
    requires total > 0.0
  {
    100.0 * (code as real) / total
  }

  /** A share scaled back by the total gives the code lines: pct * total == 100 * code. */
  lemma ShareScales(code: nat, total: real)
    requires total > 0.0
    ensures Share(code, total) * total == 100.0 * (code as real)
  {
  }

  lemma ShareBounds(code: nat, total: nat)
    requires 0 < total && code <= total
    ensures 0.0 <= Share(code, total as real) <= 100.0
  {
  }

  /** All of the code lines are one hundred percent. */
  lemma ShareWhole(total: nat)
    requires total > 0
    ensures Share(total, total as real) == 100.0
  {
  }

  lemma ShareSum(code: nat, others: nat, total: real)
    requires total > 0.0
    ensures Share(code, total) + Share(others, total) == Share(code + others, total)
  {
  }

  /**
   language_percentage: every language's share, in percent, of all code lines.
   The source accepts a Lang_Stats or a Repo_Stats; `code` picks the code-line
   field of either. Division is over the reals. A non-empty input without a
   single code line divides by zero; an empty input never divides.
   */
  method LanguagePercentage<S>(languages: map<string, S>, code: S -> nat)
    returns (r: Result<map<string, real>, Error>)
    ensures r.Err? <==> languages != map[] && TotalCode(languages, code) == 0
    ensures r.Err? ==> r.error == DivisionByZero
    ensures r.Ok? ==> r.value.Keys == languages.Keys
    ensures r.Ok? ==> forall k :: k in r.value ==>
              TotalCode(languages, code) > 0 &&
              r.value[k] == Share(code(languages[k]), TotalCode(languages, code) as real) &&
              0.0 <= r.value[k] <= 100.0
  {
    var total := 0;
    var uncounted := languages.Keys;
    while uncounted != {}
      invariant uncounted <= languages.Keys
      invariant total + SumCode(languages, code, uncounted) == TotalCode(languages, code)
      decreases uncounted
    {
      var k :| k in uncounted;
      SumCodeRemove(languages, code, uncounted, k);
      total := total + code(languages[k]);
      uncounted := uncounted - {k};
    }
    var percentages: map<string, real> := map[];
    var remaining := languages.Keys;
    while remaining != {}
      invariant remaining <= languages.Keys
      invariant total == TotalCode(languages, code)
      invariant total > 0 || remaining == languages.Keys
      invariant percentages.Keys == languages.Keys - remaining
      invariant forall k :: k in percentages ==>
                  total > 0 && percentages[k] == Share(code(languages[k]), total as real) &&
                  0.0 <= percentages[k] <= 100.0
      decreases remaining
    {
      var language :| language in remaining;
      if total == 0 {
        return Err(DivisionByZero);
      }
      SumCodeRemove(languages, code, languages.Keys, language);
      ShareBounds(code(languages[language]), total);
      percentages := percentages[language := 100.0 * (code(languages[language]) as real) / (total as real)];
      remaining := remaining - {language};
    }
    r := Ok(percentages);
  }

  /** Percentage normalisation: with a positive total, the shares add up to 100. */
  lemma PercentagesSumTo100<S>(languages: map<string, S>, code: S -> nat, percentages: map<string, real>)
    requires percentages.Keys == languages.Keys
    requires TotalCode(languages, code) > 0
    requires forall k :: k in percentages ==>
               percentages[k] == Share(code(languages[k]), TotalCode(languages, code) as real)
    ensures SumPercent(percentages, percentages.Keys) == 100.0
  {
    var total := TotalCode(languages, code);
    SharesAdd(languages, code, percentages, total as real, languages.Keys);
    assert SumPercent(percentages, percentages.Keys) == Share(total, total as real);
    ShareWhole(total);
  }

  lemma {:induction false} SharesAdd<S>(languages: map<string, S>, code: S -> nat,
                                        percentages: map<string, real>, total: real, keys: set<string>)
    requires total > 0.0
    requires percentages.Keys == languages.Keys && keys <= languages.Keys
    requires forall k :: k in percentages ==> percentages[k] == Share(code(languages[k]), total)
    ensures SumPercent(percentages, keys) == Share(SumCode(languages, code, keys), total)
    decreases keys
  {
    if keys != {} {
      var k :| k in keys;
      SumPercentRemove(percentages, keys, k);
      SumCodeRemove(languages, code, keys, k);
      SharesAdd(languages, code, percentages, total, keys - {k});
      ShareSum(code(languages[k]), SumCode(languages, code, keys - {k}), total);
    }
  }

  /** The code-line field of a Repo_Stat, for language_percentage over a Repo_Stats. */
  function RepoCode(s: RepoStat): nat { s.code }

  /** The code-line field of a Lang_Stat, for language_percentage over a Lang_Stats. */
  function LangCode(s: LangStat): nat { s.code }

  /** The worked example: Go in two repositories, Python in one. */
  lemma TwoRepositoryExample()
    ensures Fold([map["Go" := LangStat(3, 5, 2, 100)],
                  map["Go" := LangStat(1, 1, 0, 20), "Python" := LangStat(2, 2, 1, 30)]])
            == map["Go" := RepoStat(4, 6, 2, 120, 2), "Python" := RepoStat(2, 2, 1, 30, 1)]
  {
    var a: LangStats := map["Go" := LangStat(3, 5, 2, 100)];
    var b: LangStats := map["Go" := LangStat(1, 1, 0, 20), "Python" := LangStat(2, 2, 1, 30)];
    assert [a, b][..1] == [a];
    assert [a][..0] == [];
    assert Fold([a]) == map["Go" := RepoStat(3, 5, 2, 100, 1)];
  }

  lemma {:induction false} SumCodePromote(m: LangStats, keys: set<string>)
    requires keys <= m.Keys
    ensures SumCode(Promote(m), RepoCode, keys) == SumCode(m, LangCode, keys)
    decreases keys
  {
    if keys != {} {
      var k :| k in keys;
      SumCodeRemove(Promote(m), RepoCode, keys, k);
      SumCodeRemove(m, LangCode, keys, k);
      SumCodePromote(m, keys - {k});
    }
  }

  /**
   language_percentage reads only the code lines, so one repository's Lang_Stats
   and the Repo_Stats built from it have the same total and the same shares.
   */
  lemma PercentageBasisAgrees(m: LangStats)
    ensures TotalCode(Promote(m), RepoCode) == TotalCode(m, LangCode)
    ensures forall k :: k in m ==> RepoCode(Promote(m)[k]) == LangCode(m[k])
  {
    SumCodePromote(m, m.Keys);
  }

  /** The worked example's percentages: 120 of 150 code lines are Go, 30 are Python. */
  lemma TwoRepositoryPercentages()
    ensures var agg := map["Go" := RepoStat(4, 6, 2, 120, 2), "Python" := RepoStat(2, 2, 1, 30, 1)];
            TotalCode(agg, RepoCode) == 150 &&
            Share(agg["Go"].code, 150.0) == 80.0 && Share(agg["Python"].code, 150.0) == 20.0
  {
    var agg := map["Go" := RepoStat(4, 6, 2, 120, 2), "Python" := RepoStat(2, 2, 1, 30, 1)];
    assert agg.Keys == {"Go", "Python"};
    SumCodeRemove(agg, RepoCode, agg.Keys, "Go");
    assert agg.Keys - {"Go"} == {"Python"};
    SumCodeRemove(agg, RepoCode, {"Python"}, "Python");
    assert {"Python"} - {"Python"} == {};
  }
}

