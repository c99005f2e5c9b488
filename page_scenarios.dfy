/** Worked listings of cache directories, checked against the page index resolver. */
module PageScenarios {
  import opened Wrappers
  import opened StableSort
  import opened PageIndex

  lemma Page(prefix: string, d: char)
    requires NoDigits(prefix) && IsDigit(d)
    ensures PageNumber(prefix + [d] + ".png") == Some(DigitValue(d))
    ensures IsPageImage(prefix + [d] + ".png")
  {
    var name := prefix + [d] + ".png";
    assert name[..|prefix|] == prefix;
    assert name[|prefix|..|prefix| + 1] == [d];
    assert !IsDigit(name[|prefix| + 1]);
    PageNumberOfFirstRun(name, |prefix|, |prefix| + 1);
    assert DecimalValue([d]) == DigitValue(d) by {
      assert [d][..0] == [];
    }
    assert name[|name| - 4..] == ".png";
  }

  lemma TwoDigitPage(prefix: string, d1: char, d2: char)
    requires NoDigits(prefix) && IsDigit(d1) && IsDigit(d2)
    ensures PageNumber(prefix + [d1, d2] + ".png") == Some(10 * DigitValue(d1) + DigitValue(d2))
    ensures IsPageImage(prefix + [d1, d2] + ".png")
  {
    var name := prefix + [d1, d2] + ".png";
    var k := |prefix|;
    assert name[..k] == prefix;
    assert name[k..k + 2] == [d1, d2];
    assert !IsDigit(name[k + 2]);
    PageNumberOfFirstRun(name, k, k + 2);
    assert DecimalValue([d1]) == DigitValue(d1) by {
      assert [d1][..0] == [];
    }
    assert DecimalValue([d1, d2]) == 10 * DigitValue(d1) + DigitValue(d2) by {
      assert [d1, d2][..1] == [d1];
    }
    assert name[|name| - 4..] == ".png";
  }

  /** The whole run of digits counts, not only its first digit. */
  lemma PageTwelve()
    ensures PageNumber("page12.png") == Some(12)
  {
    TwoDigitPage("page", '1', '2');
    assert "page12.png" == "page" + ['1', '2'] + ".png";
  }

  lemma RetainedPair(a: string, b: string)
    requires IsPageImage(a) && IsPageImage(b)
    ensures Retained([a, b]) == [a, b]
  {
    assert [a, b][1..] == [b];
    assert Retained([b]) == [b] by { assert [b][1..] == []; }
  }

  lemma PageTen(name: string)
    requires name == "page" + ['1', '0'] + ".png"
    ensures PageNumber(name) == Some(10) && IsPageImage(name)
  {
    TwoDigitPage("page", '1', '0');
  }

  lemma PageTwo()
    ensures PageNumber("page2.png") == Some(2) && IsPageImage("page2.png")
  {
    Page("page", '2');
    assert "page2.png" == "page" + ['2'] + ".png";
  }

  lemma SortPairSwaps(a: string, b: string)
    requires Ordinal(a) > Ordinal(b)
    ensures SortBy([a, b], Ordinal) == [b, a]
  {
    assert SortBy([b], Ordinal) == [b] by { assert [b][1..] == []; }
    assert [a, b][1..] == [b];
    assert Insert(a, [b], Ordinal) == [b] + Insert(a, [], Ordinal) by { assert [b][1..] == []; }
  }

  lemma ListPair(a: string, b: string)
    requires IsPageImage(a) && IsPageImage(b)
    requires PageNumber(a).Some? && PageNumber(b).Some? && Ordinal(a) > Ordinal(b)
    ensures ListPages([a, b]) == Ok([b, a])
  {
    RetainedPair(a, b);
    SortPairSwaps(a, b);
    assert AllNumbered([a, b]);
  }

  /** `page2.png` is listed before `page10.png`, although it sorts after it as text. */
  lemma NumericNotLexical()
    ensures ListPages(["page10.png", "page2.png"]) == Ok(["page2.png", "page10.png"])
  {
    PageTen("page10.png");
    PageTwo();
    ListPair("page10.png", "page2.png");
  }

  lemma SortPairKeeps(b: string, c: string)
    requires Ordinal(b) <= Ordinal(c)
    ensures SortBy([b, c], Ordinal) == [b, c]
  {
    assert SortBy([c], Ordinal) == [c] by { assert [c][1..] == []; }
    assert [b, c][1..] == [c];
  }

  lemma SortThree(a: string, b: string, c: string)
    requires Ordinal(b) < Ordinal(c) < Ordinal(a)
    ensures SortBy([a, b, c], Ordinal) == [b, c, a]
  {
    var abc := [a, b, c];
    assert abc[0] == a && abc[1..] == [b, c];
    assert SortBy(abc, Ordinal) == Insert(a, SortBy([b, c], Ordinal), Ordinal);
    SortPairKeeps(b, c);
    InsertLast(a, b, c);
  }

  lemma InsertLast(a: string, b: string, c: string)
    requires Ordinal(b) < Ordinal(a) && Ordinal(c) < Ordinal(a)
    ensures Insert(a, [b, c], Ordinal) == [b, c, a]
  {
    var bc := [b, c];
    assert bc[0] == b && bc[1..] == [c];
    assert Insert(a, [c], Ordinal) == [c] + Insert(a, [], Ordinal) by { assert [c][1..] == []; }
  }

  lemma ListThree(a: string, b: string, c: string)
    requires IsPageImage(a) && IsPageImage(b) && IsPageImage(c)
    requires PageNumber(a).Some? && PageNumber(b).Some? && PageNumber(c).Some?
    requires Ordinal(b) < Ordinal(c) < Ordinal(a)
    ensures ListPages([a, b, c]) == Ok([b, c, a])
  {
    RetainedTriple(a, b, c);
    SortThree(a, b, c);
    assert AllNumbered([a, b, c]);
  }

  lemma RetainedTriple(a: string, b: string, c: string)
    requires IsPageImage(a) && IsPageImage(b) && IsPageImage(c)
    ensures Retained([a, b, c]) == [a, b, c]
  {
    var abc := [a, b, c];
    assert abc[0] == a && abc[1..] == [b, c];
    RetainedPair(b, c);
  }

  /** Pages written out of order are listed by page number. */
  lemma ThreePages()
    ensures ListPages(["page3.png", "page1.png", "page2.png"]) == Ok(["page1.png", "page2.png", "page3.png"])
  {
    Page("page", '3');
    Page("page", '1');
    Page("page", '2');
    assert "page3.png" == "page" + ['3'] + ".png";
    assert "page1.png" == "page" + ['1'] + ".png";
    assert "page2.png" == "page" + ['2'] + ".png";
    ListThree("page3.png", "page1.png", "page2.png");
  }

  lemma CoverAmongPages()
    ensures ListPages(["cover.png", "page1.png"]) == Err(BadFile)
  {
    var cover, one := "cover.png", "page1.png";
    assert NoDigits(cover);
    assert IsPageImage(cover) by { assert cover[|cover| - 4..] == ".png"; }
    Page("page", '1');
    assert one == "page" + ['1'] + ".png";
    RetainedPair(cover, one);
    assert PageNumber([cover, one][0]).None?;
  }

  lemma LoneCover()
    ensures ListPages(["cover.png"]) == Ok(["cover.png"])
  {
    var cover := "cover.png";
    assert IsPageImage(cover) by { assert cover[|cover| - 4..] == ".png"; }
    var listing: seq<string> := [cover];
    assert listing[1..] == [];
    assert Retained(listing) == listing;
  }

  lemma OthersIgnored()
    ensures ListPages(["temp.xopp", "page1.png"]) == Ok(["page1.png"])
  {
    var tmp, one := "temp.xopp", "page1.png";
    assert !IsPageImage(tmp) by { assert tmp[|tmp| - 4..] == "xopp"; }
    Page("page", '1');
    assert one == "page" + ['1'] + ".png";
    RetainedDropsFirst(tmp, one);
  }

  lemma RetainedDropsFirst(a: string, b: string)
    requires !IsPageImage(a) && IsPageImage(b)
    ensures ListPages([a, b]) == Ok([b])
  {
    assert [a, b][1..] == [b];
    assert Retained([b]) == [b] by { assert [b][1..] == []; }
  }
}
