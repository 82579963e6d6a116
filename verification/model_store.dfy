/**
 * Saving and finding trained models (`GarchModel.dump` and `GarchModel.load`).
 *
 * A model is saved as `<isoformat of now, ':' replaced by '-'>_<ticker>.pkl`
 * inside the model directory. Loading lists the directory with the glob
 * pattern `*<ticker>.pkl`, sorts the matching paths as strings and takes the
 * last one, or fails with "No model trained for '<ticker>'" when none match.
 *
 * The directory is a map from entry name to the saved model, which stays
 * opaque (the serializer is not modelled); the clock is the `now` parameter.
 */
module ModelStore {
  import opened Wrappers
  import opened LexOrder
  import opened Digits
  import opened Timestamps

  /** The model directory: entry name to the model saved under it. */
  type Folder<B> = map<string, B>

  /** What `dump` returns (the path) together with the directory it leaves. */
  datatype Dumped<B> = Dumped(path: string, folder: Folder<B>)

  /** What `load` attaches: the chosen path and the model saved there. */
  datatype Loaded<B> = Loaded(path: string, model: B)

  /** Python's `os.path.join(dir, name)` on POSIX. */
  function Join(dir: string, name: string): string
  {
    if |name| > 0 && name[0] == '/' then name
    else if |dir| == 0 || dir[|dir| - 1] == '/' then dir + name
    else dir + "/" + name
  }

  /** The text `Join` puts before a relative name. */
  function DirPrefix(dir: string): string
  {
    if |dir| == 0 || dir[|dir| - 1] == '/' then dir else dir + "/"
  }

  predicate StartsWithSlash(name: string)
  {
    |name| > 0 && name[0] == '/'
  }

  /**
   * Glob matching of one name against a pattern in which `*` stands for any
   * run of characters and every other character stands for itself.
   */
  predicate WildMatch(name: string, pat: string)
    decreases |pat|, |name|
  {
    if |pat| == 0 then |name| == 0
    else if pat[0] == '*' then WildMatch(name, pat[1..]) || (|name| > 0 && WildMatch(name[1..], pat))
    else |name| > 0 && name[0] == pat[0] && WildMatch(name[1..], pat[1..])
  }

  /** Glob leaves out names starting with '.' unless the pattern does too. */
  predicate IsHidden(name: string)
  {
    |name| > 0 && name[0] == '.'
  }

  /** The file-name part of the pattern `load` globs for. */
  function LoadPattern(ticker: string): string
  {
    "*" + (ticker + ".pkl")
  }

  /** An entry that `load`'s glob returns. */
  predicate Candidate<B>(folder: Folder<B>, ticker: string, name: string)
  {
    name in folder && !IsHidden(name) && WildMatch(name, LoadPattern(ticker))
  }

  /** A candidate whose path no other candidate's path sorts after. */
  predicate Greatest<B>(folder: Folder<B>, dir: string, ticker: string, name: string)
  {
    Candidate(folder, ticker, name)
    && forall m :: m in folder && Candidate(folder, ticker, m) ==> AtMost(Join(dir, m), Join(dir, name))
  }

  const NoModelPrefix: string := "No model trained for '"

  /** The timestamp part of a saved model's name. */
  function DumpStamp(now: DateTime): string
  {
    Replace(IsoFormat(now), ':', '-')
  }

  function DumpSuffix(ticker: string): string
  {
    "_" + ticker + ".pkl"
  }

  function DumpName(now: DateTime, ticker: string): string
  {
    DumpStamp(now) + DumpSuffix(ticker)
  }

  // ---------------------------------------------------------------------------
  // Facts about glob matching and paths

  lemma {:induction false} WildMatchSelf(s: string)
    ensures WildMatch(s, s)
    decreases |s|
  {
    if |s| > 0 {
      WildMatchSelf(s[1..]);
      if s[0] == '*' {
        // the star consumes the literal '*' and is then dropped
        assert WildMatch(s[1..], s[1..]);
        assert WildMatch(s[1..], s);
      }
    }
  }

  /** `*lit` matches `lit` preceded by anything. */
  lemma {:induction false} WildMatchAnyPrefix(x: string, lit: string)
    ensures WildMatch(x + lit, "*" + lit)
    decreases |x|
  {
    var pat := "*" + lit;
    assert pat[1..] == lit;
    if |x| == 0 {
      assert x + lit == lit;
      WildMatchSelf(lit);
    } else {
      assert (x + lit)[1..] == x[1..] + lit;
      WildMatchAnyPrefix(x[1..], lit);
    }
  }

  /** Without stars, a pattern matches only itself. */
  lemma {:induction false} WildMatchLiteral(name: string, lit: string)
    requires '*' !in lit
    ensures WildMatch(name, lit) <==> name == lit
    decreases |lit|
  {
    if |lit| > 0 {
      assert '*' !in lit[1..] by {
        forall i | 0 <= i < |lit| - 1 ensures lit[1..][i] != '*' {
          assert lit[1..][i] == lit[i + 1];
        }
      }
      if |name| > 0 {
        WildMatchLiteral(name[1..], lit[1..]);
        assert name == [name[0]] + name[1..];
        assert lit == [lit[0]] + lit[1..];
      }
    }
  }

  /** With a star-free literal, `*lit` is exactly the `endswith(lit)` test. */
  lemma {:induction false} WildMatchIsEndsWith(name: string, lit: string)
    requires '*' !in lit
    ensures WildMatch(name, "*" + lit) <==> EndsWith(name, lit)
    decreases |name|
  {
    var pat := "*" + lit;
    assert pat[1..] == lit;
    WildMatchLiteral(name, lit);
    if |name| > 0 {
      WildMatchIsEndsWith(name[1..], lit);
      if |lit| <= |name| - 1 {
        assert name[1..][|name| - 1 - |lit|..] == name[|name| - |lit|..];
      }
    }
  }

  /** Paths under one directory sort like the names they join. */
  lemma JoinOrder(dir: string, a: string, b: string)
    requires !StartsWithSlash(a) && !StartsWithSlash(b)
    ensures Join(dir, a) == DirPrefix(dir) + a
    ensures Below(Join(dir, a), Join(dir, b)) <==> Below(a, b)
    ensures Join(dir, a) == Join(dir, b) <==> a == b
  {
    BelowCommonPrefix(DirPrefix(dir), a, b);
    AppendEqual(DirPrefix(dir), a, DirPrefix(dir), b);
  }

  lemma AtMostTransitive(a: string, b: string, c: string)
    requires AtMost(a, b) && AtMost(b, c)
    ensures AtMost(a, c)
  {
    if Below(a, b) && Below(b, c) {
      BelowTransitive(a, b, c);
    }
  }

  /** A saved model's name starts with a digit, so it is neither hidden nor absolute. */
  lemma DumpNameStartsWithDigit(now: DateTime, ticker: string)
    ensures |DumpName(now, ticker)| > 0 && '0' <= DumpName(now, ticker)[0] <= '9'
  {
    IsoFormatStartsWithDigit(now);
    assert DumpName(now, ticker)[0] == DumpStamp(now)[0];
  }

  /** The name `dump` writes is always among `load`'s candidates for the same ticker. */
  lemma DumpNameMatches(now: DateTime, ticker: string)
    ensures !IsHidden(DumpName(now, ticker)) && !StartsWithSlash(DumpName(now, ticker))
    ensures WildMatch(DumpName(now, ticker), LoadPattern(ticker))
  {
    DumpNameStartsWithDigit(now, ticker);
    assert DumpName(now, ticker) == (DumpStamp(now) + "_") + (ticker + ".pkl");
    WildMatchAnyPrefix(DumpStamp(now) + "_", ticker + ".pkl");
  }

  /** The stamp as the fields it prints, with ':' separators turned into '-'. */
  lemma DumpStampRender(t: DateTime)
    ensures DumpStamp(t) == Render(IsoValues(t), ReplaceSeps(IsoLayout(t), ':', '-'))
  {
    ReplaceRender(IsoValues(t), IsoLayout(t), ':', '-');
  }

  /**
   * Names saved for one ticker at times of one shape sort in chronological
   * order, and two of them coincide only when the times do.
   */
  lemma DumpNameOrder(a: DateTime, b: DateTime, ticker: string)
    requires Valid(a) && Valid(b) && SameShape(a, b)
    ensures Below(DumpName(a, ticker), DumpName(b, ticker)) <==> Earlier(a, b)
    ensures DumpName(a, ticker) == DumpName(b, ticker) <==> a == b
  {
    IsoValuesOrder(a, b);
    var layout := ReplaceSeps(IsoLayout(a), ':', '-');
    FitsReplaceSeps(IsoValues(a), IsoLayout(a), ':', '-');
    FitsReplaceSeps(IsoValues(b), IsoLayout(a), ':', '-');
    RenderOrder(IsoValues(a), IsoValues(b), layout);
    DumpStampRender(a);
    DumpStampRender(b);
    BelowAppend(DumpStamp(a), DumpSuffix(ticker), DumpStamp(b), DumpSuffix(ticker));
    AppendEqual(DumpStamp(a), DumpSuffix(ticker), DumpStamp(b), DumpSuffix(ticker));
    BelowIrreflexive(DumpSuffix(ticker));
  }

  // ---------------------------------------------------------------------------
  // dump and load

  /**
   * `GarchModel.dump`: save `model` under a name built from `now` and
   * `ticker` and return its path.
   */
  function Dump<B>(folder: Folder<B>, dir: string, ticker: string, now: DateTime, model: B): (r: Dumped<B>)
    ensures EndsWith(DumpName(now, ticker), "_" + ticker + ".pkl")
    ensures ':' !in DumpName(now, ticker)[..|DumpName(now, ticker)| - |"_" + ticker + ".pkl"|]
    ensures r.path == Join(dir, DumpName(now, ticker))
    ensures Candidate(r.folder, ticker, DumpName(now, ticker))
    ensures r.folder[DumpName(now, ticker)] == model
    ensures forall n :: n != DumpName(now, ticker) ==> (n in r.folder <==> n in folder)
    ensures forall n :: n != DumpName(now, ticker) && n in folder ==> r.folder[n] == folder[n]
  {
    var name := DumpName(now, ticker);
    DumpNameMatches(now, ticker);
    assert name[..|name| - |DumpSuffix(ticker)|] == DumpStamp(now);
    Dumped(Join(dir, name), folder[name := model])
  }

  /**
   * `GarchModel.load`: among the entries matching `*<ticker>.pkl`, the one
   * whose path sorts last, or the "No model trained" error when none match.
   * Glob lists the directory in no particular order; the loop visits the
   * entries in an arbitrary order and keeps the greatest path seen.
   */
  method Load<B>(folder: Folder<B>, dir: string, ticker: string) returns (r: Result<Loaded<B>>)
    ensures r.Failure? <==> forall n :: !Candidate(folder, ticker, n)
    ensures r.Failure? ==> r.error == NoModelPrefix + ticker + "'"
    ensures r.Success? ==> exists n :: Greatest(folder, dir, ticker, n)
                                     && r.value.path == Join(dir, n) && r.value.model == folder[n]
  {
    var pending := folder.Keys;
    var best: Option<string> := None;
    while pending != {}
      invariant pending <= folder.Keys
      invariant best.Some? ==> Candidate(folder, ticker, best.value)
      invariant best.Some? ==> forall m :: m !in pending && Candidate(folder, ticker, m) ==>
                                         AtMost(Join(dir, m), Join(dir, best.value))
      invariant best.None? ==> forall m :: m !in pending ==> !Candidate(folder, ticker, m)
      decreases pending
    {
      var n :| n in pending;
      pending := pending - {n};
      if !IsHidden(n) && WildMatch(n, LoadPattern(ticker)) {
        if best.None? {
          best := Some(n);
        } else if Below(Join(dir, best.value), Join(dir, n)) {
          forall m | m !in pending && Candidate(folder, ticker, m)
            ensures AtMost(Join(dir, m), Join(dir, n))
          {
            if m != n {
              AtMostTransitive(Join(dir, m), Join(dir, best.value), Join(dir, n));
            }
          }
          best := Some(n);
        } else {
          BelowTotal(Join(dir, best.value), Join(dir, n));
        }
      }
    }
    match best
    case None =>
      r := Failure(NoModelPrefix + ticker + "'");
    case Some(n) =>
      r := Success(Loaded(Join(dir, n), folder[n]));
  }

  // ---------------------------------------------------------------------------
  // Sorted-last is the greatest candidate

  /** Python's `sorted` output: every element at most the next. */
  predicate SortedPaths(s: seq<string>)
  {
    forall i :: 0 < i < |s| ==> AtMost(s[i - 1], s[i])
  }

  lemma {:induction false} SortedLastIsGreatest(s: seq<string>)
    requires SortedPaths(s) && |s| > 0
    ensures forall i :: 0 <= i < |s| ==> AtMost(s[i], s[|s| - 1])
    decreases |s|
  {
    if |s| > 1 {
      var init := s[..|s| - 1];
      assert SortedPaths(init) by {
        forall i | 0 < i < |init| ensures AtMost(init[i - 1], init[i]) {
          assert init[i - 1] == s[i - 1] && init[i] == s[i];
        }
      }
      SortedLastIsGreatest(init);
      forall i | 0 <= i < |s| ensures AtMost(s[i], s[|s| - 1]) {
        if i < |s| - 1 {
          assert AtMost(init[i], init[|init| - 1]);
          AtMostTransitive(s[i], s[|s| - 2], s[|s| - 1]);
        }
      }
    }
  }

  /**
   * Whatever order glob lists the candidates in, the last element of their
   * sorted list (the path `load` opens) is the greatest candidate's path.
   */
  lemma LoadIsSortedLast<B>(folder: Folder<B>, dir: string, ticker: string, s: seq<string>, name: string)
    requires SortedPaths(s)
    requires forall p :: p in s <==> exists n :: n in folder && Candidate(folder, ticker, n) && p == Join(dir, n)
    requires Greatest(folder, dir, ticker, name)
    ensures |s| > 0 && s[|s| - 1] == Join(dir, name)
  {
    assert Join(dir, name) in s;
    SortedLastIsGreatest(s);
    var last := s[|s| - 1];
    assert last in s;
    var m :| m in folder && Candidate(folder, ticker, m) && last == Join(dir, m);
    var k :| 0 <= k < |s| && s[k] == Join(dir, name);
    assert AtMost(Join(dir, name), last);
    assert AtMost(last, Join(dir, name));
    if last != Join(dir, name) {
      BelowAsymmetric(last, Join(dir, name));
    }
  }

  /** In a directory (no entry name contains '/') the greatest candidate is unique. */
  lemma GreatestUnique<B>(folder: Folder<B>, dir: string, ticker: string, a: string, b: string)
    requires forall n :: n in folder ==> !StartsWithSlash(n)
    requires Greatest(folder, dir, ticker, a) && Greatest(folder, dir, ticker, b)
    ensures a == b
  {
    JoinOrder(dir, a, b);
    if a != b {
      BelowAsymmetric(Join(dir, a), Join(dir, b));
    }
  }

  // ---------------------------------------------------------------------------
  // When "sorts last" means "most recent", and when it does not

  /**
   * The docstring's promise: if every candidate was saved by `dump` for this
   * ticker, and all their times print in one shape, the greatest candidate
   * holds the latest of those times.
   */
  lemma GreatestIsMostRecent<B>(folder: Folder<B>, dir: string, ticker: string,
                                stamps: map<string, DateTime>, fractionless: bool, name: string)
    requires forall n :: n in folder && Candidate(folder, ticker, n) ==>
               n in stamps && n == DumpName(stamps[n], ticker) && Valid(stamps[n])
               && (stamps[n].microsecond == 0) == fractionless
    requires Greatest(folder, dir, ticker, name)
    ensures forall n :: n in folder && Candidate(folder, ticker, n) ==> !Earlier(stamps[name], stamps[n])
  {
    forall n | n in folder && Candidate(folder, ticker, n)
      ensures !Earlier(stamps[name], stamps[n])
    {
      DumpNameMatches(stamps[n], ticker);
      DumpNameMatches(stamps[name], ticker);
      JoinOrder(dir, n, name);
      DumpNameOrder(stamps[name], stamps[n], ticker);
      if n != name {
        BelowAsymmetric(n, name);
      } else {
        BelowIrreflexive(n);
      }
    }
  }

  /**
   * Saving a model at a time later than every earlier save for the ticker
   * (all of one shape) makes it the greatest candidate, so the next `load`
   * returns exactly the model just saved.
   */
  lemma DumpThenLoadFindsIt<B>(folder: Folder<B>, dir: string, ticker: string, now: DateTime, model: B,
                               stamps: map<string, DateTime>)
    requires Valid(now)
    requires forall n :: n in folder && Candidate(folder, ticker, n) ==>
               n in stamps && n == DumpName(stamps[n], ticker) && Valid(stamps[n])
               && SameShape(stamps[n], now) && Earlier(stamps[n], now)
    ensures Greatest(Dump(folder, dir, ticker, now, model).folder, dir, ticker, DumpName(now, ticker))
    ensures Dump(folder, dir, ticker, now, model).folder[DumpName(now, ticker)] == model
  {
    var r := Dump(folder, dir, ticker, now, model);
    var name := DumpName(now, ticker);
    DumpNameMatches(now, ticker);
    forall m | m in r.folder && Candidate(r.folder, ticker, m)
      ensures AtMost(Join(dir, m), Join(dir, name))
    {
      if m != name {
        assert Candidate(folder, ticker, m);
        DumpNameMatches(stamps[m], ticker);
        DumpNameOrder(stamps[m], now, ticker);
        JoinOrder(dir, m, name);
      }
    }
  }

  /** A time with a fraction prints as the same time on the whole second followed by the fraction. */
  lemma FractionStamp(t: DateTime, u: nat)
    requires Valid(t) && t.microsecond == 0 && 0 < u < 1000000
    ensures DumpStamp(t.(microsecond := u)) == DumpStamp(t) + ("." + Pad(u, 6))
  {
    var t2 := t.(microsecond := u);
    var layout := ReplaceSeps(ClockLayout, ':', '-');
    assert Replace(".", ':', '-') == ".";
    assert ReplaceSeps(ClockLayout + [FractionField], ':', '-') == layout + [FractionField];
    DumpStampRender(t);
    DumpStampRender(t2);
    RenderAppend(Clock(t), layout, u, FractionField);
  }

  /** '.' sorts before '_', so the name with a fraction sorts first. */
  lemma FractionNameOrder(t: DateTime, u: nat, ticker: string)
    requires Valid(t) && t.microsecond == 0 && 0 < u < 1000000
    ensures Below(DumpName(t.(microsecond := u), ticker), DumpName(t, ticker))
  {
    FractionStamp(t, u);
    DotBeforeUnderscore(DumpStamp(t), "." + Pad(u, 6), DumpSuffix(ticker));
  }

  lemma DotBeforeUnderscore(stamp: string, frac: string, suffix: string)
    requires |frac| > 0 && frac[0] == '.' && |suffix| > 0 && suffix[0] == '_'
    ensures Below((stamp + frac) + suffix, stamp + suffix)
  {
    assert (stamp + frac) + suffix == stamp + (frac + suffix);
    BelowCommonPrefix(stamp, frac + suffix, suffix);
    assert (frac + suffix)[0] == '.';
  }

  /**
   * `isoformat` drops the fraction when the microsecond is 0, and '.' sorts
   * before '_'. So a model saved on a whole second sorts after one saved
   * later within that second, and `load` returns the older one.
   */
  lemma WholeSecondSortsLast<B>(t: DateTime, u: nat, ticker: string, dir: string, older: B, newer: B)
    requires Valid(t) && t.microsecond == 0 && 0 < u < 1000000
    ensures Earlier(t, t.(microsecond := u))
    ensures Below(DumpName(t.(microsecond := u), ticker), DumpName(t, ticker))
    ensures Greatest(map[DumpName(t, ticker) := older, DumpName(t.(microsecond := u), ticker) := newer],
                     dir, ticker, DumpName(t, ticker))
  {
    var t2 := t.(microsecond := u);
    LexLessLast(Clock(t), 0, u);
    FractionNameOrder(t, u, ticker);
    DumpNameMatches(t, ticker);
    DumpNameMatches(t2, ticker);
    JoinOrder(dir, DumpName(t2, ticker), DumpName(t, ticker));
  }

  /** `*IBM.pkl` matches a name saved for ticker "XIBM". */
  lemma SuffixTickerMatches(t: DateTime)
    ensures !IsHidden(DumpName(t, "XIBM")) && WildMatch(DumpName(t, "XIBM"), LoadPattern("IBM"))
  {
    var stamp := DumpStamp(t);
    DumpNameMatches(t, "XIBM");
    assert DumpName(t, "XIBM") == (stamp + "_X") + ("IBM" + ".pkl");
    WildMatchAnyPrefix(stamp + "_X", "IBM" + ".pkl");
  }

  /** At one time, the "XIBM" name sorts after the "IBM" name. */
  lemma SuffixTickerSortsAfter(t: DateTime)
    ensures Below(DumpName(t, "IBM"), DumpName(t, "XIBM"))
  {
    BelowCommonPrefix(DumpStamp(t), DumpSuffix("IBM"), DumpSuffix("XIBM"));
    assert DumpSuffix("IBM") == "_IBM.pkl" && DumpSuffix("XIBM") == "_XIBM.pkl";
    assert Below("IBM.pkl", "XIBM.pkl");
  }

  /** A name saved for "IBM" has '_' eight characters from its end, an "XIBM" one has 'X'. */
  lemma SuffixTickerNeverDumped(t: DateTime, t': DateTime)
    ensures DumpName(t', "IBM") != DumpName(t, "XIBM")
  {
    var n, other := DumpName(t', "IBM"), DumpName(t, "XIBM");
    assert other[|other| - 8] == 'X';
    assert n[|n| - 8] == '_';
  }

  /**
   * `*IBM.pkl` also matches a model saved for ticker "XIBM", and that name
   * sorts after the "IBM" one saved at the same time: `load` for "IBM"
   * returns a file that `dump` never wrote for "IBM".
   */
  lemma SuffixTickerIsLoaded<B>(t: DateTime, dir: string, mine: B, other: B)
    ensures Candidate(map[DumpName(t, "IBM") := mine, DumpName(t, "XIBM") := other], "IBM", DumpName(t, "XIBM"))
    ensures Greatest(map[DumpName(t, "IBM") := mine, DumpName(t, "XIBM") := other], dir, "IBM", DumpName(t, "XIBM"))
    ensures forall t' :: DumpName(t', "IBM") != DumpName(t, "XIBM")
  {
    var mineName, otherName := DumpName(t, "IBM"), DumpName(t, "XIBM");
    DumpNameMatches(t, "IBM");
    DumpNameMatches(t, "XIBM");
    SuffixTickerMatches(t);
    SuffixTickerSortsAfter(t);
    JoinOrder(dir, mineName, otherName);
    forall t' | true ensures DumpName(t', "IBM") != otherName {
      SuffixTickerNeverDumped(t, t');
    }
  }
}
