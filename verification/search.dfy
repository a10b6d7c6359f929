/**
 * The search view of the listing page: a record is shown when its name, city and address,
 * joined with single spaces and lower-cased, contain the lower-cased search term.
 */
module Search {
  import opened Listing

  /** Lower-casing of one character, restricted to the ASCII letters. */
  function LowerChar(c: char): char
  {
    if 'A' <= c <= 'Z' then (c as int + 32) as char else c
  }

  /** `toLowerCase()` on a whole string. */
  function Lower(s: string): (r: string)
    ensures |r| == |s|
    ensures forall i :: 0 <= i < |s| ==> r[i] == LowerChar(s[i])
  {
    if s == [] then [] else [LowerChar(s[0])] + Lower(s[1..])
  }

  /** `[school.name, school.city, school.address].join(" ")`. */
  function SearchText(x: School): string
  {
    x.name + " " + x.city + " " + x.address
  }

  /** `text` holds `term` starting at position `i`. */
  ghost predicate OccursAt(text: string, term: string, i: nat)
  {
    i + |term| <= |text| && text[i..i + |term|] == term
  }

  /** `text.includes(term)`: `term` is a prefix of `text` or of one of its suffixes. */
  function Includes(text: string, term: string): bool
    decreases |text|
  {
    (|term| <= |text| && text[..|term|] == term) || (text != [] && Includes(text[1..], term))
  }

  /** `Includes` holds exactly when the term occurs at some position of the text. */
  lemma IncludesSpec(text: string, term: string)
    ensures Includes(text, term) <==> exists i: nat :: OccursAt(text, term, i)
  {
    if Includes(text, term) {
      var i := IncludesWitness(text, term);
    }
    forall i: nat | OccursAt(text, term, i) ensures Includes(text, term) {
      OccursIncludes(text, term, i);
    }
  }

  lemma {:induction false} IncludesWitness(text: string, term: string) returns (i: nat)
    requires Includes(text, term)
    ensures OccursAt(text, term, i)
    decreases |text|
  {
    if |term| <= |text| && text[..|term|] == term {
      i := 0;
    } else {
      var j := IncludesWitness(text[1..], term);
      assert text[j + 1..j + 1 + |term|] == text[1..][j..j + |term|];
      i := j + 1;
    }
  }

  lemma {:induction false} OccursIncludes(text: string, term: string, i: nat)
    requires OccursAt(text, term, i)
    ensures Includes(text, term)
    decreases i
  {
    if i > 0 {
      assert text[1..][i - 1..i - 1 + |term|] == text[i..i + |term|];
      assert OccursAt(text[1..], term, i - 1);
      OccursIncludes(text[1..], term, i - 1);
    }
  }

  /** The search predicate applied by the filter. */
  predicate Matches(x: School, term: string)
  {
    Includes(Lower(SearchText(x)), Lower(term))
  }

  /** `schools.filter(school => matches)`, for a term known to be non-empty or not. */
  function FilterMatching(s: seq<School>, term: string): (r: seq<School>)
    ensures forall x :: x in r <==> x in s && Matches(x, term)
    ensures SubseqOf(r, s)
  {
    if s == [] then []
    else if Matches(s[0], term) then
      var r := [s[0]] + FilterMatching(s[1..], term);
      assert r[0] == s[0] && r[1..] == FilterMatching(s[1..], term);
      r
    else FilterMatching(s[1..], term)
  }

  /** The filter keeps every copy of a matching record and no copy of any other. */
  lemma {:induction false} FilterMatchingCounts(s: seq<School>, term: string)
    ensures forall y :: multiset(FilterMatching(s, term))[y] == if Matches(y, term) then multiset(s)[y] else 0
  {
    if s != [] {
      FilterMatchingCounts(s[1..], term);
      assert s == [s[0]] + s[1..];
    }
  }

  lemma {:induction false} SubseqRefl(s: seq<School>)
    ensures SubseqOf(s, s)
  {
    if s != [] {
      SubseqRefl(s[1..]);
    }
  }

  /** The filtered view of the search effect: all schools for an empty term, otherwise the
      matching ones in list order. */
  function Project(s: seq<School>, term: string): (r: seq<School>)
    ensures term == "" ==> r == s
    ensures term != "" ==> forall x :: x in r <==> x in s && Matches(x, term)
    ensures SubseqOf(r, s)
    ensures UniqueIds(s) ==> UniqueIds(r)
  {
    SubseqRefl(s);
    var r := if term == "" then s else FilterMatching(s, term);
    ProjectUnique(s, r);
    r
  }

  /** With a term, the view keeps every copy of a matching record and no copy of any other. */
  lemma ProjectCounts(s: seq<School>, term: string)
    requires term != ""
    ensures forall y :: multiset(Project(s, term))[y] == if Matches(y, term) then multiset(s)[y] else 0
  {
    FilterMatchingCounts(s, term);
  }

  lemma ProjectUnique(s: seq<School>, r: seq<School>)
    requires SubseqOf(r, s)
    ensures UniqueIds(s) ==> UniqueIds(r)
  {
    if UniqueIds(s) {
      SubseqUnique(r, s);
    }
  }

  // ---------------------------------------------------------------------------
  // Properties of the search view
  // ---------------------------------------------------------------------------

  /** The empty term matches every record, so the `!searchTerm` shortcut shows what the
      filter itself would show. */
  lemma {:induction false} EmptyTermKeepsAll(s: seq<School>)
    ensures FilterMatching(s, "") == s
  {
    if s != [] {
      assert Lower("") == "";
      assert Matches(s[0], "");
      EmptyTermKeepsAll(s[1..]);
    }
  }

  lemma {:induction false} FilterMatchingTwice(s: seq<School>, term: string)
    ensures FilterMatching(FilterMatching(s, term), term) == FilterMatching(s, term)
  {
    if s != [] {
      FilterMatchingTwice(s[1..], term);
    }
  }

  /** Projecting an already projected view changes nothing. */
  lemma ProjectIdempotent(s: seq<School>, term: string)
    ensures Project(Project(s, term), term) == Project(s, term)
  {
    FilterMatchingTwice(s, term);
  }

  lemma {:induction false} FilterMatchingConcat(a: seq<School>, b: seq<School>, term: string)
    ensures FilterMatching(a + b, term) == FilterMatching(a, term) + FilterMatching(b, term)
  {
    if a != [] {
      assert (a + b)[0] == a[0] && (a + b)[1..] == a[1..] + b;
      FilterMatchingConcat(a[1..], b, term);
    } else {
      assert a + b == b;
    }
  }

  /** The view of a concatenation is the concatenation of the views. */
  lemma ProjectConcat(a: seq<School>, b: seq<School>, term: string)
    ensures Project(a + b, term) == Project(a, term) + Project(b, term)
  {
    FilterMatchingConcat(a, b, term);
  }

  /** A merge never reorders or drops what the search view already showed: the old view is a
      prefix of the view re-derived from the merged list. */
  lemma ProjectAfterMerge(prev: seq<School>, batch: seq<School>, term: string)
    requires UniqueIds(prev)
    ensures Project(prev, term) <= Project(Merge(prev, batch), term)
  {
    var r := Merge(prev, batch);
    assert r == prev + r[|prev|..];
    ProjectConcat(prev, r[|prev|..], term);
  }

  lemma {:induction false} FilterMatchingRemove(s: seq<School>, id: int, term: string)
    ensures FilterMatching(Remove(s, id), term) == Remove(FilterMatching(s, term), id)
  {
    if s != [] {
      FilterMatchingRemove(s[1..], id, term);
    }
  }

  /** Deleting and then projecting gives the projected view minus the deleted id. */
  lemma ProjectRemove(s: seq<School>, id: int, term: string)
    ensures Project(Remove(s, id), term) == Remove(Project(s, term), id)
  {
    FilterMatchingRemove(s, id, term);
  }

  lemma {:induction false} FilterMatchingSameLower(s: seq<School>, t1: string, t2: string)
    requires Lower(t1) == Lower(t2)
    ensures FilterMatching(s, t1) == FilterMatching(s, t2)
  {
    if s != [] {
      FilterMatchingSameLower(s[1..], t1, t2);
    }
  }

  /** Terms that differ only in letter case give the same view. */
  lemma ProjectCaseInsensitive(s: seq<School>, t1: string, t2: string)
    requires Lower(t1) == Lower(t2)
    ensures Project(s, t1) == Project(s, t2)
  {
    FilterMatchingSameLower(s, t1, t2);
  }

  /** The term is searched in the joined text, so it can span the space between two fields:
      "K P" is found in "Oak" + " " + "Pune" though neither field contains it. */
  lemma TermSpansFields()
    ensures var x := School(1, "Oak", "X", "Pune", "");
            Matches(x, "K P") &&
            !Includes(Lower(x.name), Lower("K P")) &&
            !Includes(Lower(x.city), Lower("K P")) &&
            !Includes(Lower(x.address), Lower("K P"))
  {
    var x := School(1, "Oak", "X", "Pune", "");
    LowerKP();
    JoinedTextHoldsKP(x);
    LowerFields();
    assert !Includes("oak", "k p") by { assert "oak"[1..] == "ak"; }
    assert !Includes("pune", "k p") by { assert "pune"[..3] != "k p"; assert "pune"[1..] == "une"; }
    assert !Includes("x", "k p");
  }

  lemma JoinedTextHoldsKP(x: School)
    requires x.name == "Oak" && x.city == "Pune" && x.address == "X"
    ensures Includes(Lower(SearchText(x)), "k p")
  {
    var text := Lower(SearchText(x));
    assert SearchText(x)[2] == 'k' && SearchText(x)[3] == ' ' && SearchText(x)[4] == 'P';
    assert text[2..5] == "k p";
    assert OccursAt(text, "k p", 2);
    IncludesSpec(text, "k p");
  }

  lemma LowerKP()
    ensures Lower("K P") == "k p"
  {
    var r := Lower("K P");
    assert r[0] == 'k' && r[1] == ' ' && r[2] == 'p';
  }

  lemma LowerFields()
    ensures Lower("Oak") == "oak" && Lower("Pune") == "pune" && Lower("X") == "x"
  {
    var a, b, c := Lower("Oak"), Lower("Pune"), Lower("X");
    assert a[0] == 'o' && a[1] == 'a' && a[2] == 'k';
    assert b[0] == 'p' && b[1] == 'u' && b[2] == 'n' && b[3] == 'e';
    assert c[0] == 'x';
  }
}
