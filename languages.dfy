/**
 * The language report, `check_tesseract_languages` in server.py: the
 * installed language codes sorted, counted, and matched against the table of
 * common languages. The engine's language query, the version line and the
 * engine's executable path are inputs.
 */
module Languages {

  /** What `pytesseract.get_languages()` gave back: the installed codes, or
      the message of the exception it raised. */
  datatype LanguageQuery = QueryRaised(message: string) | Installed(codes: seq<string>)

  /** The dictionary the tool returns. `commonLanguages` keeps the
      insertion order of the dictionary the server builds. */
  datatype LanguageReport =
    | LanguagesOk(version: string, path: string, available: seq<string>, languageCount: nat,
                  commonLanguages: seq<(string, string)>,
                  recommendedForGerman: bool, recommendedForEnglish: bool)
    | LanguagesFailed(error: string, available: seq<string>, path: string)

  /** The common languages with their German names, in the order the server
      lists them. */
  const CommonLanguages: seq<(string, string)> := [
    ("deu", "Deutsch"),
    ("eng", "Englisch"),
    ("fra", "Französisch"),
    ("spa", "Spanisch"),
    ("ita", "Italienisch"),
    ("por", "Portugiesisch"),
    ("rus", "Russisch"),
    ("chi_sim", "Chinesisch (vereinfacht)"),
    ("chi_tra", "Chinesisch (traditionell)"),
    ("jpn", "Japanisch"),
    ("ara", "Arabisch")
  ]

  // ---------------------------------------------------------------------
  // Python's ordering of strings

  /** `a <= b` on Python strings: lexicographic on code points, a proper
      prefix first. */
  predicate StrLe(a: string, b: string)
    decreases |a|
  {
    a == [] || (b != [] && (a[0] < b[0] || (a[0] == b[0] && StrLe(a[1..], b[1..]))))
  }

  lemma {:induction false} StrLeTotal(a: string, b: string)
    ensures StrLe(a, b) || StrLe(b, a)
    decreases |a|
  {
    if a != [] && b != [] && a[0] == b[0] {
      StrLeTotal(a[1..], b[1..]);
    }
  }

  lemma {:induction false} StrLeReflexive(a: string)
    ensures StrLe(a, a)
    decreases |a|
  {
    if a != [] {
      StrLeReflexive(a[1..]);
    }
  }

  lemma {:induction false} StrLeTransitive(a: string, b: string, c: string)
    requires StrLe(a, b) && StrLe(b, c)
    ensures StrLe(a, c)
    decreases |a|
  {
    if a != [] && b != [] && c != [] && a[0] == b[0] == c[0] {
      StrLeTransitive(a[1..], b[1..], c[1..]);
    }
  }

  lemma {:induction false} StrLeAntisymmetric(a: string, b: string)
    requires StrLe(a, b) && StrLe(b, a)
    ensures a == b
    decreases |a|
  {
    if a != [] {
      StrLeAntisymmetric(a[1..], b[1..]);
      assert a == [a[0]] + a[1..] && b == [b[0]] + b[1..];
    }
  }

  predicate Sorted(xs: seq<string>) {
    forall k, l :: 0 <= k < l < |xs| ==> StrLe(xs[k], xs[l])
  }

  // ---------------------------------------------------------------------
  // sorted(languages)

  /** `x` put into the sorted list `xs` after every element before it. */
  function Insert(x: string, xs: seq<string>): (r: seq<string>)
    requires Sorted(xs)
    ensures Sorted(r) && multiset(r) == multiset(xs) + multiset{x}
  {
    if xs == [] then [x]
    else if StrLe(x, xs[0]) then
      forall l | 0 < l < |xs| ensures StrLe(x, xs[l]) {
        StrLeTransitive(x, xs[0], xs[l]);
      }
      [x] + xs
    else
      StrLeTotal(x, xs[0]);
      assert xs == [xs[0]] + xs[1..];
      var rest := Insert(x, xs[1..]);
      forall k | 0 <= k < |rest| ensures StrLe(xs[0], rest[k]) {
        assert rest[k] in multiset(rest);
      }
      [xs[0]] + rest
  }

  /** `sorted(languages)`: the codes in ascending order, each as often as it
      was installed. */
  function SortCodes(codes: seq<string>): (r: seq<string>)
    ensures Sorted(r) && multiset(r) == multiset(codes)
    ensures |r| == |codes|
  {
    if codes == [] then []
    else
      assert codes == [codes[0]] + codes[1..];
      Insert(codes[0], SortCodes(codes[1..]))
  }

  /** A sorted arrangement of a list is unique: any sorted permutation of the
      codes is the one the report gives. */
  lemma {:induction false} SortedUnique(xs: seq<string>, ys: seq<string>)
    requires Sorted(xs) && Sorted(ys) && multiset(xs) == multiset(ys)
    ensures xs == ys
    decreases |xs|
  {
    if xs == [] {
      assert |multiset(ys)| == 0;
    } else {
      SortedFirst(xs, ys);
      SortedTail(xs);
      SortedTail(ys);
      assert xs == [xs[0]] + xs[1..] && ys == [ys[0]] + ys[1..];
      assert multiset(xs[1..]) == multiset(xs) - multiset{xs[0]};
      assert multiset(ys[1..]) == multiset(ys) - multiset{ys[0]};
      SortedUnique(xs[1..], ys[1..]);
    }
  }

  /** Two sorted permutations of each other start with the same element. */
  lemma SortedFirst(xs: seq<string>, ys: seq<string>)
    requires Sorted(xs) && Sorted(ys) && multiset(xs) == multiset(ys) && xs != []
    ensures ys != [] && xs[0] == ys[0]
  {
    assert xs[0] in multiset(ys);
    assert ys != [] && ys[0] in multiset(xs);
    var i :| 0 <= i < |ys| && ys[i] == xs[0];
    var j :| 0 <= j < |xs| && xs[j] == ys[0];
    StrLeReflexive(xs[0]);
    assert StrLe(ys[0], ys[i]);
    assert StrLe(xs[0], xs[j]);
    StrLeAntisymmetric(xs[0], ys[0]);
  }

  lemma SortedTail(xs: seq<string>)
    requires Sorted(xs) && xs != []
    ensures Sorted(xs[1..])
  {
  }

  /** Sorting a sorted list changes nothing. */
  lemma SortIdempotent(codes: seq<string>)
    ensures SortCodes(SortCodes(codes)) == SortCodes(codes)
  {
    SortedUnique(SortCodes(SortCodes(codes)), SortCodes(codes));
  }

  // ---------------------------------------------------------------------
  // available_common

  /** `xs` occurs in `ys` in order, possibly with gaps. */
  predicate Subsequence<T(==)>(xs: seq<T>, ys: seq<T>)
    decreases |ys|
  {
    xs == [] || (ys != [] && (if xs[0] == ys[0] then Subsequence(xs[1..], ys[1..])
                              else Subsequence(xs, ys[1..])))
  }

  /** The entries of `table` whose code is installed, in table order. */
  function InstalledEntries(table: seq<(string, string)>, codes: seq<string>): (r: seq<(string, string)>)
    ensures |r| <= |table|
    ensures forall e :: e in r <==> e in table && e.0 in codes
    ensures Subsequence(r, table)
    ensures forall e :: multiset(r)[e] == if e.0 in codes then multiset(table)[e] else 0
  {
    if table == [] then []
    else
      var rest := InstalledEntries(table[1..], codes);
      assert forall e :: e in table <==> e == table[0] || e in table[1..];
      assert table == [table[0]] + table[1..];
      assert multiset(table) == multiset{table[0]} + multiset(table[1..]);
      if table[0].0 in codes then [table[0]] + rest
      else
        SubsequenceSkip(rest, table);
        rest
  }

  /** A subsequence of the tail is a subsequence of the whole. */
  lemma {:induction false} SubsequenceSkip<T>(xs: seq<T>, ys: seq<T>)
    requires ys != [] && Subsequence(xs, ys[1..])
    ensures Subsequence(xs, ys)
    decreases |ys|, 0
  {
    if xs != [] && xs[0] == ys[0] {
      SubsequenceTail(xs, ys[1..]);
    }
  }

  lemma {:induction false} SubsequenceTail<T>(xs: seq<T>, ys: seq<T>)
    requires xs != [] && Subsequence(xs, ys)
    ensures Subsequence(xs[1..], ys)
    decreases |ys|, 1
  {
    if xs[0] == ys[0] {
      if xs[1..] != [] {
        SubsequenceSkip(xs[1..], ys);
      }
    } else {
      SubsequenceTail(xs, ys[1..]);
      SubsequenceSkip(xs[1..], ys);
    }
  }

  /** The common languages that are installed: a code is listed with its
      name exactly when it is in the table and installed, in table order. */
  function CommonAvailable(codes: seq<string>): (r: seq<(string, string)>)
    ensures |r| <= |CommonLanguages|
    ensures forall e :: e in r <==> e in CommonLanguages && e.0 in codes
    ensures Subsequence(r, CommonLanguages)
    ensures forall e :: multiset(r)[e] == if e.0 in codes then multiset(CommonLanguages)[e] else 0
  {
    InstalledEntries(CommonLanguages, codes)
  }

  // ---------------------------------------------------------------------
  // The tool result

  /** `check_tesseract_languages`. A raised language query gives a failure
      with an empty list; otherwise the report lists the installed codes in
      ascending order, counts them, names the installed common languages and
      says whether German and English are installed. */
  function CheckLanguages(query: LanguageQuery, version: string, path: string): (r: LanguageReport)
    ensures query.QueryRaised? ==> r == LanguagesFailed(query.message, [], path)
    ensures r.LanguagesOk? <==> query.Installed?
    ensures r.path == path
    ensures r.LanguagesOk? ==>
      && r.version == version
      && Sorted(r.available) && multiset(r.available) == multiset(query.codes)
      && r.languageCount == |query.codes|
      && (forall e :: e in r.commonLanguages <==> e in CommonLanguages && e.0 in query.codes)
      && Subsequence(r.commonLanguages, CommonLanguages)
      && (r.recommendedForGerman <==> "deu" in query.codes)
      && (r.recommendedForEnglish <==> "eng" in query.codes)
  {
    match query
    case QueryRaised(message) => LanguagesFailed(message, [], path)
    case Installed(codes) =>
      LanguagesOk(version, path, SortCodes(codes), |codes|, CommonAvailable(codes),
                  "deu" in codes, "eng" in codes)
  }

  /** The German flag agrees with the common list: it is set exactly when
      `Deutsch` is listed, and likewise for English. */
  lemma FlagsMatchCommon(codes: seq<string>, version: string, path: string)
    ensures var r := CheckLanguages(Installed(codes), version, path);
      && (r.recommendedForGerman <==> ("deu", "Deutsch") in r.commonLanguages)
      && (r.recommendedForEnglish <==> ("eng", "Englisch") in r.commonLanguages)
  {
    assert CommonLanguages[0] == ("deu", "Deutsch");
    assert CommonLanguages[1] == ("eng", "Englisch");
  }

  /** The installed list in the report does not depend on the order the
      engine reported the codes in. */
  lemma AvailableOrderFree(codes1: seq<string>, codes2: seq<string>, version: string, path: string)
    requires multiset(codes1) == multiset(codes2)
    ensures CheckLanguages(Installed(codes1), version, path).available
         == CheckLanguages(Installed(codes2), version, path).available
  {
    SortedUnique(SortCodes(codes1), SortCodes(codes2));
  }
}
