/**
 * The page index resolver of the preview (src/xoppEditor.ts:77-92): the
 * entries of a cache directory are filtered to `.png` files and sorted by
 * the page number embedded in each name.
 */
module PageIndex {
  import opened Wrappers
  import opened StableSort

  predicate IsDigit(c: char) { '0' <= c <= '9' }

  predicate AllDigits(s: string) { forall k :: 0 <= k < |s| ==> IsDigit(s[k]) }

  predicate NoDigits(s: string) { forall k :: 0 <= k < |s| ==> !IsDigit(s[k]) }

  function DigitValue(c: char): (d: nat)
    requires IsDigit(c)
    ensures d < 10
  {
    c as int - '0' as int
  }

  function DigitChar(d: nat): (c: char)
    requires d < 10
    ensures IsDigit(c) && DigitValue(c) == d
  {
    ('0' as int + d) as char
  }

  /** The number a run of decimal digits denotes, as `parseInt` reads it (unbounded). */
  function DecimalValue(ds: string): nat
    requires AllDigits(ds)
  {
    if ds == [] then 0 else 10 * DecimalValue(ds[..|ds| - 1]) + DigitValue(ds[|ds| - 1])
  }

  /** The canonical decimal spelling of n: no leading zeros, "0" for zero. */
  function Decimal(n: nat): (s: string)
    ensures |s| > 0 && AllDigits(s)
    ensures |s| > 1 ==> s[0] != '0'
  {
    if n < 10 then [DigitChar(n)] else Decimal(n / 10) + [DigitChar(n % 10)]
  }

  /** Reading back the canonical spelling of a number gives that number. */
  lemma {:induction false} DecimalRoundTrip(n: nat)
    ensures DecimalValue(Decimal(n)) == n
  {
    var s := Decimal(n);
    if n >= 10 {
      DecimalRoundTrip(n / 10);
      assert s[..|s| - 1] == Decimal(n / 10);
    }
  }

  /** Zero padding does not change the number a digit run denotes. */
  lemma {:induction false} ZeroPaddingIrrelevant(ds: string)
    requires AllDigits(ds)
    ensures AllDigits("0" + ds) && DecimalValue("0" + ds) == DecimalValue(ds)
  {
    assert AllDigits("0" + ds);
    if ds != [] {
      var t := ds[..|ds| - 1];
      ZeroPaddingIrrelevant(t);
      assert ("0" + ds)[..|ds|] == "0" + t;
    }
  }

  /** Length of the longest prefix of s made of digits. */
  function DigitPrefixLength(s: string): (n: nat)
    ensures n <= |s| && AllDigits(s[..n])
    ensures n == |s| || !IsDigit(s[n])
  {
    if s != [] && IsDigit(s[0]) then
      var m := DigitPrefixLength(s[1..]);
      assert s[..m + 1] == [s[0]] + s[1..][..m];
      1 + m
    else 0
  }

  /** s[i..j] is the first maximal run of digits in s: what `/\d+/` matches. */
  predicate IsFirstRun(s: string, i: nat, j: nat) {
    i < j <= |s| && AllDigits(s[i..j]) && NoDigits(s[..i]) && (j == |s| || !IsDigit(s[j]))
  }

  /** The text `/\d+/` matches in s, or None when s has no digit. */
  function FirstDigitRun(s: string): (r: Option<string>)
    ensures r.None? <==> NoDigits(s)
    ensures r.Some? ==> |r.value| > 0 && AllDigits(r.value)
  {
    if s == [] then None
    else if IsDigit(s[0]) then Some(s[..DigitPrefixLength(s)])
    else
      var r := FirstDigitRun(s[1..]);
      assert NoDigits(s[1..]) <==> NoDigits(s);
      r
  }

  /** Whatever FirstDigitRun returns is the first maximal run of digits. */
  lemma {:induction false} FirstDigitRunIsFirstRun(s: string)
    requires FirstDigitRun(s).Some?
    ensures exists i: nat, j: nat :: IsFirstRun(s, i, j) && FirstDigitRun(s).value == s[i..j]
  {
    if IsDigit(s[0]) {
      var j := DigitPrefixLength(s);
      assert IsFirstRun(s, 0, j) && FirstDigitRun(s).value == s[0..j];
    } else {
      FirstDigitRunIsFirstRun(s[1..]);
      var i: nat, j: nat :| IsFirstRun(s[1..], i, j) && FirstDigitRun(s[1..]).value == s[1..][i..j];
      assert s[1..][i..j] == s[i + 1..j + 1];
      assert s[..i + 1] == [s[0]] + s[1..][..i];
      assert IsFirstRun(s, i + 1, j + 1);
    }
  }

  /** The first maximal run of digits is what FirstDigitRun returns. */
  lemma {:induction false} FirstRunIsFirstDigitRun(s: string, i: nat, j: nat)
    requires IsFirstRun(s, i, j)
    ensures FirstDigitRun(s) == Some(s[i..j])
  {
    if i == 0 {
      var n := DigitPrefixLength(s);
      assert IsDigit(s[0..j][0]);
    } else {
      assert !IsDigit(s[..i][0]);
      assert s[1..][..i - 1] == s[1..i];
      assert forall k :: 0 <= k < i - 1 ==> s[1..i][k] == s[..i][k + 1];
      assert s[1..][i - 1..j - 1] == s[i..j];
      FirstRunIsFirstDigitRun(s[1..], i - 1, j - 1);
    }
  }

  /** `pageNumber` of src/xoppEditor.ts: the value of the first run of digits; None where it throws. */
  function PageNumber(name: string): (r: Option<nat>)
    ensures r.None? <==> NoDigits(name)
  {
    match FirstDigitRun(name)
    case None => None
    case Some(run) => Some(DecimalValue(run))
  }

  /** The page number of a name is the decimal value of its first maximal run of digits. */
  lemma PageNumberOfFirstRun(name: string, i: nat, j: nat)
    requires IsFirstRun(name, i, j)
    ensures PageNumber(name) == Some(DecimalValue(name[i..j]))
  {
    FirstRunIsFirstDigitRun(name, i, j);
  }

  /** `x.endsWith(".png")`. */
  predicate IsPageImage(name: string) {
    |name| >= 4 && name[|name| - 4..] == ".png"
  }

  /** The `.filter(x => x.endsWith(".png"))` step. */
  function Retained(entries: seq<string>): (r: seq<string>)
    ensures forall x :: multiset(r)[x] == if IsPageImage(x) then multiset(entries)[x] else 0
    ensures forall i :: 0 <= i < |r| ==> IsPageImage(r[i])
  {
    if entries == [] then []
    else
      var rest := Retained(entries[1..]);
      assert entries == [entries[0]] + entries[1..];
      if IsPageImage(entries[0]) then [entries[0]] + rest else rest
  }

  /** A single entry is kept exactly when it is a `.png` name. */
  lemma RetainedSingleton(x: string)
    ensures Retained([x]) == if IsPageImage(x) then [x] else []
  {
    assert [x][1..] == [];
  }

  /** The filter works entry by entry and keeps the order of the entries. */
  lemma {:induction false} RetainedAppend(a: seq<string>, b: seq<string>)
    ensures Retained(a + b) == Retained(a) + Retained(b)
  {
    if a == [] {
      assert a + b == b;
    } else {
      assert (a + b)[0] == a[0];
      assert (a + b)[1..] == a[1..] + b;
      RetainedAppend(a[1..], b);
    }
  }

  /** Sort key: the page number, where there is one. */
  function Ordinal(name: string): nat {
    match PageNumber(name)
    case None => 0
    case Some(n) => n
  }

  datatype ListError = BadFile

  /** Every name in s carries a page number. */
  predicate AllNumbered(s: seq<string>) {
    forall i :: 0 <= i < |s| ==> PageNumber(s[i]).Some?
  }

  /**
   * The listing pipeline of resolveCustomEditor: keep the `.png` entries and
   * sort them by page number. The comparator throws "Bad file in temp
   * directory" on a name without digits, and the sort calls it only when at
   * least two entries are kept.
   */
  function ListPages(entries: seq<string>): (r: Result<seq<string>, ListError>)
    ensures r.Err? <==> |Retained(entries)| >= 2 && !AllNumbered(Retained(entries))
    ensures r.Ok? ==> multiset(r.value) == multiset(Retained(entries))
    ensures r.Ok? ==> SortedBy(r.value, Ordinal)
    ensures r.Ok? && |r.value| >= 2 ==> AllNumbered(r.value)
  {
    var pages := Retained(entries);
    if |pages| <= 1 then Ok(pages)
    else if AllNumbered(pages) then
      var sorted := SortBy(pages, Ordinal);
      assert forall i :: 0 <= i < |sorted| ==> sorted[i] in multiset(pages);
      Ok(sorted)
    else Err(BadFile)
  }

  /** Some kept entry has no digit exactly when some `.png` entry has none. */
  lemma DigitlessRetained(entries: seq<string>)
    ensures !AllNumbered(Retained(entries)) <==> exists x :: x in entries && IsPageImage(x) && NoDigits(x)
  {
    var pages := Retained(entries);
    if !AllNumbered(pages) {
      var i :| 0 <= i < |pages| && PageNumber(pages[i]).None?;
      assert pages[i] in multiset(pages);
    }
    if exists x :: x in entries && IsPageImage(x) && NoDigits(x) {
      var x :| x in entries && IsPageImage(x) && NoDigits(x);
      assert x in multiset(entries);
      assert x in multiset(pages);
      var i :| 0 <= i < |pages| && pages[i] == x;
    }
  }

  /**
   * The listing in terms of the directory entries: it fails exactly when two
   * or more `.png` entries are kept and one of them has no digit; otherwise it
   * holds each `.png` entry as often as the directory does and nothing else,
   * sorted by page number.
   */
  lemma ListPagesSpec(entries: seq<string>)
    ensures ListPages(entries).Err? <==>
      |Retained(entries)| >= 2 && exists x :: x in entries && IsPageImage(x) && NoDigits(x)
    ensures ListPages(entries).Ok? ==>
      forall x :: multiset(ListPages(entries).value)[x] == if IsPageImage(x) then multiset(entries)[x] else 0
    ensures ListPages(entries).Ok? && |ListPages(entries).value| >= 2 ==>
      forall i, j :: 0 <= i < j < |ListPages(entries).value| ==>
        PageNumber(ListPages(entries).value[i]).value <= PageNumber(ListPages(entries).value[j]).value
  {
    DigitlessRetained(entries);
  }
  /** Entries with equal page numbers stay in the order the directory listed them. */
  lemma ListPagesStable(entries: seq<string>, k: nat)
    requires ListPages(entries).Ok?
    ensures WithKey(ListPages(entries).value, Ordinal, k) == WithKey(Retained(entries), Ordinal, k)
  {
    var pages := Retained(entries);
    if |pages| > 1 {
      SortByIsStable(pages, Ordinal, k);
    }
  }

  predicate Distinct(s: seq<string>) {
    forall i, j :: 0 <= i < j < |s| ==> s[i] != s[j]
  }

  lemma {:induction false} DistinctCount(s: seq<string>, x: string)
    requires Distinct(s)
    ensures multiset(s)[x] <= 1
  {
    if s != [] {
      assert s == [s[0]] + s[1..];
      DistinctCount(s[1..], x);
      if s[0] == x {
        assert x !in s[1..];
      }
    }
  }

  lemma {:induction false} WithKeyCount(s: seq<string>, k: nat, x: string)
    ensures multiset(WithKey(s, Ordinal, k))[x] == if Ordinal(x) == k then multiset(s)[x] else 0
  {
    if s != [] {
      assert s == [s[0]] + s[1..];
      WithKeyCount(s[1..], k, x);
    }
  }

  lemma SingletonBySize(a: seq<string>, b: seq<string>)
    requires multiset(a) == multiset(b) && |a| <= 1
    ensures a == b
  {
    assert |b| == |multiset(b)| == |multiset(a)| == |a|;
    if |a| == 1 {
      assert b[0] in multiset(a);
    }
  }

  /**
   * Page numbers are unique within one cache directory: no two distinct
   * `.png` entries share one.
   */
  predicate UniquePageNumbers(entries: seq<string>) {
    forall i, j ::
      (0 <= i < |entries| && 0 <= j < |entries| && entries[i] != entries[j] &&
       IsPageImage(entries[i]) && IsPageImage(entries[j])) ==> PageNumber(entries[i]) != PageNumber(entries[j])
  }

  lemma AtMostOnePerKey(entries: seq<string>, k: nat)
    requires Distinct(entries) && UniquePageNumbers(entries)
    requires AllNumbered(Retained(entries))
    ensures |WithKey(Retained(entries), Ordinal, k)| <= 1
  {
    var pages := Retained(entries);
    var w := WithKey(pages, Ordinal, k);
    if |w| >= 2 {
      WithKeyMembers(pages, Ordinal, k);
      assert w[0] in pages && w[1] in pages;
      assert w[0] in multiset(pages) && w[1] in multiset(pages);
      assert w[0] in multiset(entries) && w[1] in multiset(entries);
      if w[0] == w[1] {
        assert w == [w[0], w[1]] + w[2..];
        assert multiset(w)[w[0]] >= 2;
        WithKeyCount(pages, k, w[0]);
        DistinctCount(entries, w[0]);
      } else {
        assert false;
      }
    }
  }

  /** Two enumerations of the same entries keep the same `.png` entries. */
  lemma RetainedSameMultiset(e1: seq<string>, e2: seq<string>)
    requires multiset(e1) == multiset(e2)
    ensures multiset(Retained(e1)) == multiset(Retained(e2))
  {
    forall x ensures multiset(Retained(e1))[x] == multiset(Retained(e2))[x] { }
  }

  lemma AllNumberedSame(p1: seq<string>, p2: seq<string>)
    requires multiset(p1) == multiset(p2)
    ensures AllNumbered(p1) <==> AllNumbered(p2)
  {
    if !AllNumbered(p1) {
      var i :| 0 <= i < |p1| && PageNumber(p1[i]).None?;
      assert p1[i] in multiset(p2);
    }
    if !AllNumbered(p2) {
      var i :| 0 <= i < |p2| && PageNumber(p2[i]).None?;
      assert p2[i] in multiset(p1);
    }
  }

  lemma SameKeyClasses(e1: seq<string>, e2: seq<string>, k: nat)
    requires multiset(e1) == multiset(e2)
    requires Distinct(e1) && UniquePageNumbers(e1)
    requires AllNumbered(Retained(e1))
    ensures WithKey(Retained(e1), Ordinal, k) == WithKey(Retained(e2), Ordinal, k)
  {
    var p1, p2 := Retained(e1), Retained(e2);
    RetainedSameMultiset(e1, e2);
    AtMostOnePerKey(e1, k);
    forall x ensures multiset(WithKey(p1, Ordinal, k))[x] == multiset(WithKey(p2, Ordinal, k))[x] {
      WithKeyCount(p1, k, x);
      WithKeyCount(p2, k, x);
    }
    assert multiset(WithKey(p1, Ordinal, k)) == multiset(WithKey(p2, Ordinal, k));
    SingletonBySize(WithKey(p1, Ordinal, k), WithKey(p2, Ordinal, k));
  }

  /**
   * When page numbers are unique, the order in which the directory is
   * enumerated does not matter: any two enumerations list the same pages.
   */
  lemma ListingOrderIrrelevant(e1: seq<string>, e2: seq<string>)
    requires multiset(e1) == multiset(e2)
    requires Distinct(e1) && UniquePageNumbers(e1)
    ensures ListPages(e1) == ListPages(e2)
  {
    var p1, p2 := Retained(e1), Retained(e2);
    RetainedSameMultiset(e1, e2);
    assert |p1| == |multiset(p1)| == |multiset(p2)| == |p2|;
    AllNumberedSame(p1, p2);
    if |p1| <= 1 {
      SingletonBySize(p1, p2);
    } else if AllNumbered(p1) {
      var s1, s2 := ListPages(e1).value, ListPages(e2).value;
      forall k ensures WithKey(s1, Ordinal, k) == WithKey(s2, Ordinal, k) {
        ListPagesStable(e1, k);
        ListPagesStable(e2, k);
        SameKeyClasses(e1, e2, k);
      }
      StableSortIsUnique(s1, s2, Ordinal);
    }
  }
}
