/**
 The reporting side of main.py: splitting the exclusion options into lists,
 the rule that decides which repositories are cloned, and the per-language
 table built from the aggregate and its percentages.
 */
module Main {
  import opened Wrappers
  import Cloc

  // ---------------------------------------------------------------------------
  // re.split('[, ]+', text)

  /** The characters of the pattern's class `[, ]`. */
  predicate IsSeparator(c: char)
  {
    c == ',' || c == ' '
  }

  predicate NoSeparator(s: string)
  {
    forall i :: 0 <= i < |s| ==> !IsSeparator(s[i])
  }

  /** Where the word that starts at `i` ends: the first separator at or after `i`, or the end. */
  function WordEnd(s: string, i: nat): (j: nat)
    requires i <= |s|
    ensures i <= j <= |s|
    ensures forall k :: i <= k < j ==> !IsSeparator(s[k])
    ensures j < |s| ==> IsSeparator(s[j])
    decreases |s| - i
  {
    if i == |s| || IsSeparator(s[i]) then i else WordEnd(s, i + 1)
  }

  /** Where the run of separators that starts at `i` ends (one greedy match of `[, ]+`). */
  function RunEnd(s: string, i: nat): (j: nat)
    requires i <= |s|
    ensures i <= j <= |s|
    ensures forall k :: i <= k < j ==> IsSeparator(s[k])
    ensures j < |s| ==> !IsSeparator(s[j])
    decreases |s| - i
  {
    if i < |s| && IsSeparator(s[i]) then RunEnd(s, i + 1) else i
  }

  /**
   The pieces of `s` from position `i` on: the word at `i`, then, after the
   separator run that ends it, the pieces that follow.
   */
  function SplitFrom(s: string, i: nat): (pieces: seq<string>)
    requires i <= |s|
    ensures |pieces| >= 1
    decreases |s| - i
  {
    var j := WordEnd(s, i);
    if j == |s| then [s[i..j]] else [s[i..j]] + SplitFrom(s, RunEnd(s, j))
  }

  /**
   re.split('[, ]+', text): the pieces between maximal runs of commas and
   spaces. Empty text gives one empty piece; a leading or trailing run gives
   an empty first or last piece.
   */
  function Split(s: string): seq<string>
  {
    SplitFrom(s, 0)
  }

  /** No piece contains a comma or a space. */
  lemma {:induction false} SplitFromHasNoSeparator(s: string, i: nat)
    requires i <= |s|
    ensures forall m :: 0 <= m < |SplitFrom(s, i)| ==> NoSeparator(SplitFrom(s, i)[m])
    decreases |s| - i
  {
    var j := WordEnd(s, i);
    assert NoSeparator(s[i..j]) by {
      forall k | 0 <= k < j - i
        ensures !IsSeparator(s[i..j][k])
      {
        assert s[i..j][k] == s[i + k];
      }
    }
    if j < |s| {
      SplitFromHasNoSeparator(s, RunEnd(s, j));
    }
  }

  lemma SplitPiecesHaveNoSeparator(s: string)
    ensures forall m :: 0 <= m < |Split(s)| ==> NoSeparator(Split(s)[m])
  {
    SplitFromHasNoSeparator(s, 0);
  }

  /** A text splits into an empty first piece exactly when it is empty or starts with a separator. */
  lemma SplitFirstEmpty(s: string)
    ensures Split(s)[0] == [] <==> s == [] || IsSeparator(s[0])
  {
    var j := WordEnd(s, 0);
    assert Split(s)[0] == s[0..j];
  }

  /** The last piece from `i` on is empty exactly when `i` is the end or the text ends with a separator. */
  lemma {:induction false} SplitFromLastEmpty(s: string, i: nat)
    requires i <= |s|
    ensures var pieces := SplitFrom(s, i);
            pieces[|pieces| - 1] == [] <==> i == |s| || IsSeparator(s[|s| - 1])
    decreases |s| - i
  {
    var j := WordEnd(s, i);
    if j == |s| {
      assert SplitFrom(s, i) == [s[i..j]];
    } else {
      var k := RunEnd(s, j);
      SplitFromLastEmpty(s, k);
      var tail := SplitFrom(s, k);
      assert SplitFrom(s, i) == [s[i..j]] + tail;
      assert ([s[i..j]] + tail)[|tail|] == tail[|tail| - 1];
    }
  }

  /** A text splits into an empty last piece exactly when it is empty or ends with a separator. */
  lemma SplitLastEmpty(s: string)
    ensures Split(s)[|Split(s)| - 1] == [] <==> s == [] || IsSeparator(s[|s| - 1])
  {
    SplitFromLastEmpty(s, 0);
  }

  /** From a position that starts no separator run on, every piece but the last is non-empty. */
  lemma {:induction false} SplitFromInteriorNonEmpty(s: string, i: nat)
    requires i <= |s|
    ensures forall m :: 0 < m < |SplitFrom(s, i)| - 1 ==> SplitFrom(s, i)[m] != []
    decreases |s| - i
  {
    var j := WordEnd(s, i);
    if j < |s| {
      var k := RunEnd(s, j);
      SplitFromInteriorNonEmpty(s, k);
      var tail := SplitFrom(s, k);
      assert SplitFrom(s, i) == [s[i..j]] + tail;
      if |tail| >= 2 {
        assert k < |s| && !IsSeparator(s[k]);
        assert WordEnd(s, k) > k;
        assert tail[0] == s[k..WordEnd(s, k)];
      }
      forall m | 0 < m < |SplitFrom(s, i)| - 1
        ensures SplitFrom(s, i)[m] != []
      {
        assert SplitFrom(s, i)[m] == tail[m - 1];
      }
    }
  }

  /** Every piece strictly between the first and the last is non-empty. */
  lemma SplitInteriorNonEmpty(s: string)
    ensures forall m :: 0 < m < |Split(s)| - 1 ==> Split(s)[m] != []
  {
    SplitFromInteriorNonEmpty(s, 0);
  }

  /** The characters of `s` from `i` on that are not separators. */
  function LettersFrom(s: string, i: nat): string
    requires i <= |s|
    decreases |s| - i
  {
    if i == |s| then [] else (if IsSeparator(s[i]) then [] else [s[i]]) + LettersFrom(s, i + 1)
  }

  /** The text with every separator removed. */
  function Letters(s: string): string
  {
    LettersFrom(s, 0)
  }

  /** The pieces written one after the other. */
  function Concat(pieces: seq<string>): string
    decreases |pieces|
  {
    if pieces == [] then [] else pieces[0] + Concat(pieces[1..])
  }

  /** A stretch without separators keeps all its characters. */
  lemma {:induction false} LettersOfWord(s: string, i: nat, j: nat)
    requires i <= j <= |s|
    requires forall k :: i <= k < j ==> !IsSeparator(s[k])
    ensures LettersFrom(s, i) == s[i..j] + LettersFrom(s, j)
    decreases j - i
  {
    if i < j {
      var rest := LettersFrom(s, j);
      assert LettersFrom(s, i + 1) == s[i + 1..j] + rest by {
        LettersOfWord(s, i + 1, j);
      }
      assert !IsSeparator(s[i]);
      assert LettersFrom(s, i) == [s[i]] + (s[i + 1..j] + rest);
      assert [s[i]] + (s[i + 1..j] + rest) == s[i..j] + rest by {
        assert s[i..j] == [s[i]] + s[i + 1..j];
      }
    }
  }

  /** A run of separators contributes nothing. */
  lemma {:induction false} LettersOfRun(s: string, i: nat, j: nat)
    requires i <= j <= |s|
    requires forall k :: i <= k < j ==> IsSeparator(s[k])
    ensures LettersFrom(s, i) == LettersFrom(s, j)
    decreases j - i
  {
    if i < j {
      LettersOfRun(s, i + 1, j);
    }
  }

  lemma {:induction false} SplitFromKeepsLetters(s: string, i: nat)
    requires i <= |s|
    ensures Concat(SplitFrom(s, i)) == LettersFrom(s, i)
    decreases |s| - i
  {
    var j := WordEnd(s, i);
    LettersOfWord(s, i, j);
    if j == |s| {
      assert LettersFrom(s, j) == [];
      assert Concat([s[i..j]]) == s[i..j] + Concat([]);
      assert s[i..j] + [] == s[i..j];
    } else {
      var k := RunEnd(s, j);
      LettersOfRun(s, j, k);
      SplitFromKeepsLetters(s, k);
      var tail := SplitFrom(s, k);
      assert ([s[i..j]] + tail)[1..] == tail;
    }
  }

  /** Splitting loses only the separators: the pieces, concatenated, are the text without them. */
  lemma SplitKeepsLetters(s: string)
    ensures Concat(Split(s)) == Letters(s)
  {
    SplitFromKeepsLetters(s, 0);
  }

  /** The words written one after the other with `sep` between each two: the inverse of Split. */
  function Join(words: seq<string>, sep: string): string
    decreases |words|
  {
    if |words| <= 1 then (if words == [] then [] else words[0])
    else words[0] + sep + Join(words[1..], sep)
  }

  /** A word without separators that is followed by a separator or the end ends exactly there. */
  lemma {:induction false} WordEndAt(s: string, i: nat, n: nat)
    requires i + n <= |s|
    requires forall k :: i <= k < i + n ==> !IsSeparator(s[k])
    requires i + n == |s| || IsSeparator(s[i + n])
    ensures WordEnd(s, i) == i + n
    decreases n
  {
    if n > 0 {
      WordEndAt(s, i + 1, n - 1);
    }
  }

  /** A run of separators followed by a non-separator or the end ends exactly there. */
  lemma {:induction false} RunEndAt(s: string, i: nat, n: nat)
    requires i + n <= |s|
    requires forall k :: i <= k < i + n ==> IsSeparator(s[k])
    requires i + n == |s| || !IsSeparator(s[i + n])
    ensures RunEnd(s, i) == i + n
    decreases n
  {
    if n > 0 {
      RunEndAt(s, i + 1, n - 1);
    }
  }

  /** Words that are non-empty and free of commas and spaces. */
  predicate PlainWords(words: seq<string>)
  {
    forall m :: 0 <= m < |words| ==> words[m] != [] && NoSeparator(words[m])
  }

  /** A non-empty run of commas and spaces. */
  predicate SeparatorRun(sep: string)
  {
    sep != [] && forall k :: 0 <= k < |sep| ==> IsSeparator(sep[k])
  }

  /** Where a text continues with `a + b` at `i`, `a` sits at `i` and `b` follows it. */
  lemma SuffixParts(s: string, i: nat, a: string, b: string)
    requires i <= |s| && s[i..] == a + b
    ensures i + |a| <= |s| && s[i..i + |a|] == a && s[i + |a|..] == b
    ensures forall k :: i <= k < i + |a| ==> s[k] == a[k - i]
  {
    assert forall k :: i <= k < i + |a| ==> s[k] == s[i..][k - i] == (a + b)[k - i];
    assert s[i..][..|a|] == a;
    assert s[i..][|a|..] == b;
  }

  /** A joined list starts with the first character of its first word. */
  lemma JoinStarts(words: seq<string>, sep: string)
    requires words != [] && words[0] != []
    ensures Join(words, sep) != [] && Join(words, sep)[0] == words[0][0]
  {
    if |words| > 1 {
      assert Join(words, sep) == words[0] + (sep + Join(words[1..], sep));
    }
  }

  /**
   Where the text continues with two or more joined words at `i`: the first
   word ends at its length, the separator run after it ends where the next
   word starts, and the remaining words follow.
   */
  lemma JoinStep(s: string, i: nat, words: seq<string>, sep: string)
    requires i <= |s| && s[i..] == Join(words, sep)
    requires |words| > 1 && PlainWords(words) && SeparatorRun(sep)
    ensures var n := |words[0]|;
            i + n + |sep| <= |s| && s[i..i + n] == words[0] &&
            WordEnd(s, i) == i + n && RunEnd(s, i + n) == i + n + |sep| &&
            s[i + n + |sep|..] == Join(words[1..], sep)
  {
    var w := words[0];
    var n := |w|;
    var rest := Join(words[1..], sep);
    assert NoSeparator(w);
    assert s[i..] == w + (sep + rest);
    SuffixParts(s, i, w, sep + rest);
    SuffixParts(s, i + n, sep, rest);
    var m := i + n + |sep|;
    JoinStarts(words[1..], sep);
    assert words[1..][0] == words[1];
    assert NoSeparator(words[1]);
    assert s[m..][0] == rest[0];
    WordEndAt(s, i, n);
    RunEndAt(s, i + n, |sep|);
  }

  lemma {:induction false} SplitFromJoin(s: string, i: nat, words: seq<string>, sep: string)
    requires i <= |s| && s[i..] == Join(words, sep)
    requires words != [] && PlainWords(words) && SeparatorRun(sep)
    ensures SplitFrom(s, i) == words
    decreases |words|
  {
    var w := words[0];
    var j := i + |w|;
    if |words| == 1 {
      assert NoSeparator(w);
      assert s[i..] == w + [];
      SuffixParts(s, i, w, []);
      WordEndAt(s, i, |w|);
      assert j == |s|;
      assert SplitFrom(s, i) == [s[i..j]];
      assert s[i..j] == w;
      assert words == [w];
    } else {
      JoinStep(s, i, words, sep);
      var k := j + |sep|;
      assert PlainWords(words[1..]) by {
        forall m | 0 <= m < |words[1..]|
          ensures words[1..][m] != [] && NoSeparator(words[1..][m])
        {
          assert words[1..][m] == words[m + 1];
        }
      }
      SplitFromJoin(s, k, words[1..], sep);
      assert WordEnd(s, i) == j < |s|;
      assert SplitFrom(s, i) == [s[i..j]] + SplitFrom(s, RunEnd(s, j));
      assert RunEnd(s, j) == k && s[i..j] == w;
      assert SplitFrom(s, RunEnd(s, j)) == words[1..];
      assert words == [w] + words[1..];
      assert SplitFrom(s, i) == words;
    }
  }

  /**
   Splitting recovers the words of a list written with separator runs between
   them, e.g. `--excluded_langs "C++, Text"` gives the names `C++` and `Text`.
   */
  lemma SplitJoin(words: seq<string>, sep: string)
    requires words != [] && PlainWords(words) && SeparatorRun(sep)
    ensures Split(Join(words, sep)) == words
  {
    var s := Join(words, sep);
    assert s[0..] == s;
    SplitFromJoin(s, 0, words, sep);
  }

  /** The default option values: `Text` for languages, the empty string for repositories. */
  lemma DefaultExclusions()
    ensures Split("Text") == ["Text"]
    ensures Split("") == [""]
  {
    assert WordEnd("Text", 0) == 4;
    assert "Text"[0..4] == "Text";
    assert ""[0..0] == "";
  }

  /** A list written with a comma and a space splits into its two names. */
  lemma CommaSpaceList()
    ensures Split("C++, Text") == ["C++", "Text"]
  {
    var s := "C++, Text";
    assert WordEnd(s, 0) == 3;
    assert RunEnd(s, 3) == 5;
    assert WordEnd(s, 5) == 9;
    assert s[0..3] == "C++";
    assert s[5..9] == "Text";
    assert SplitFrom(s, 5) == ["Text"];
  }

  // ---------------------------------------------------------------------------
  // download_repos: which repositories are cloned

  /** The fields of a repository descriptor that the selection reads. */
  datatype Repo = Repo(name: string, cloneUrl: string, fork: bool)

  /**
   The DowloadConfig dataclass of main.py, field for field. The skip rule reads
   only `exclude` and `excludeForks`; the others feed the clone and the
   logging, which are not modelled.
   */
  datatype DownloadConfig = DownloadConfig(
    tmpDir: string, username: string, exclude: seq<string>,
    maxRepos: int, excludeForks: bool, doPrint: bool)

  /** A repository is passed over when its clone URL is excluded, or it is a fork and forks are excluded. */
  predicate Skipped(repo: Repo, config: DownloadConfig)
  {
    repo.cloneUrl in config.exclude || (repo.fork && config.excludeForks)
  }

  /** Reference definition: the repositories that are not skipped, in listing order. */
  function Selected(repos: seq<Repo>, config: DownloadConfig): seq<Repo>
    decreases |repos|
  {
    if repos == [] then []
    else
      var prefix := Selected(repos[..|repos| - 1], config);
      var last := repos[|repos| - 1];
      if Skipped(last, config) then prefix else prefix + [last]
  }

  /** A repository is cloned exactly when it is listed and not skipped. */
  lemma {:induction false} SelectedMembers(repos: seq<Repo>, config: DownloadConfig)
    ensures forall repo :: repo in Selected(repos, config) <==> repo in repos && !Skipped(repo, config)
    decreases |repos|
  {
    if repos != [] {
      var n := |repos| - 1;
      SelectedMembers(repos[..n], config);
      assert repos == repos[..n] + [repos[n]];
    }
  }

  /**
   The loop of download_repos over the listed repositories: the ones it goes
   on to clone, in order. The clone itself is a process call and not modelled.
   */
  method ReposToClone(repos: seq<Repo>, config: DownloadConfig) returns (cloned: seq<Repo>)
    ensures cloned == Selected(repos, config)
    ensures |cloned| <= |repos|
  {
    cloned := [];
    for i := 0 to |repos|
      invariant cloned == Selected(repos[..i], config)
      invariant |cloned| <= i
    {
      assert repos[..i + 1][..i] == repos[..i];
      var repo := repos[i];
      if repo.cloneUrl in config.exclude {
        continue;
      }
      if repo.fork && config.excludeForks {
        continue;
      }
      cloned := cloned + [repo];
    }
    assert repos[..|repos|] == repos;
  }

  // ---------------------------------------------------------------------------
  // The language table

  /** One row of the table handed to the plot. */
  datatype Row = Row(files: nat, lines: nat, percentage: real, repos: nat, name: string)

  /** What main does after the table is built: stop with "No languages found." or plot the rows. */
  datatype Report = NoLanguagesFound | Languages(table: map<string, Row>)

  /**
   The table of main: one row per language of `percentages` whose name is not,
   exactly, in `excludedLanguages`; an empty table ends the run early.
   */
  method LanguageReport(langs: Cloc.RepoStatMap, percentages: map<string, real>,
                        excludedLanguages: seq<string>) returns (report: Report)
    requires percentages.Keys <= langs.Keys
    ensures report.NoLanguagesFound? <==>
              forall language :: language in percentages ==> language in excludedLanguages
    ensures report.Languages? ==> report.table != map[]
    ensures report.Languages? ==> forall language :: language in report.table <==>
              language in percentages && language !in excludedLanguages
    ensures report.Languages? ==> forall language :: language in report.table ==>
              var stat := langs[language];
              report.table[language] == Row(stat.nFiles, stat.code, percentages[language], stat.repos, language)
  {
    var languages: map<string, Row> := map[];
    var remaining := percentages.Keys;
    while remaining != {}
      invariant remaining <= percentages.Keys
      invariant forall language :: language in languages <==>
                  language in percentages && language !in remaining && language !in excludedLanguages
      invariant forall language :: language in languages ==>
                  var stat := langs[language];
                  languages[language] == Row(stat.nFiles, stat.code, percentages[language], stat.repos, language)
      decreases remaining
    {
      var language :| language in remaining;
      remaining := remaining - {language};
      if language in excludedLanguages {
        continue;
      }
      var stat := langs[language];
      languages := languages[language := Row(stat.nFiles, stat.code, percentages[language], stat.repos, language)];
    }
    if languages == map[] {
      assert forall language :: language in percentages ==> language in excludedLanguages by {
        forall language | language in percentages
          ensures language in excludedLanguages
        {
          assert language !in languages;
        }
      }
      return NoLanguagesFound;
    }
    report := Languages(languages);
  }

  /**
   Lines 102-121 of main after the clones are in place: aggregate every
   repository's counts, take the percentages of the aggregate (a division by
   zero propagates out of main), and build the table without the languages
   named in the `--excluded_langs` option.
   */
  method LanguageSummary(repos: seq<Cloc.LangStats>, excludedLangs: string)
    returns (r: Result<Report, Cloc.Error>)
    ensures r.Err? <==> Cloc.Fold(repos) != map[] && Cloc.TotalCode(Cloc.Fold(repos), Cloc.RepoCode) == 0
    ensures r.Ok? ==> (r.value.NoLanguagesFound? <==>
              forall language :: language in Cloc.Fold(repos) ==> language in Split(excludedLangs))
    ensures r.Ok? && r.value.Languages? ==> forall language :: language in r.value.table <==>
              (exists i :: 0 <= i < |repos| && language in repos[i]) && language !in Split(excludedLangs)
    ensures r.Ok? && r.value.Languages? ==> forall language :: language in r.value.table ==>
              var total := Cloc.Total(repos, language);
              var row := r.value.table[language];
              row.name == language && row.files == total.nFiles && row.lines == total.code &&
              row.repos == |Cloc.Holders(repos, language)| >= 1
    ensures r.Ok? && r.value.Languages? ==> forall language :: language in r.value.table ==>
              var total := Cloc.TotalCode(Cloc.Fold(repos), Cloc.RepoCode);
              total > 0 &&
              r.value.table[language].percentage == Cloc.Share(Cloc.Total(repos, language).code, total as real)
  {
    var langs := Cloc.CountLangRepos(repos);
    var stats := langs.stats;
    var percentages := Cloc.LanguagePercentage(stats, Cloc.RepoCode);
    if percentages.Err? {
      return Err(percentages.error);
    }
    var report := LanguageReport(stats, percentages.value, Split(excludedLangs));
    Cloc.FoldKeys(repos);
    forall language | language in stats
      ensures stats[language] == Cloc.Total(repos, language)
      ensures stats[language].repos == |Cloc.Holders(repos, language)| >= 1
    {
      Cloc.FoldCounts(repos, language);
    }
    r := Ok(report);
  }
}
