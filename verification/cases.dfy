/**
 * The case index and what is derived from it: the filter predicate, the
 * subspecialty options, the grid cards and the grid metrics.
 */
module Cases {
  import opened Strings
  import opened Sorting

  /** One entry of the case index as the API lists it. */
  datatype CaseEntry = CaseEntry(caseId: int, caseTitle: string, subspecialty: string)

  /** The text a search term is looked up in: `"<id> <title> <subspecialty>"`, lower-cased. */
  function Searchable(c: CaseEntry): string
  {
    Lower(IntToString(c.caseId) + " " + c.caseTitle + " " + c.subspecialty)
  }

  /**
   * The filter predicate: an empty subspecialty or an empty (already lower-cased)
   * search term does not filter.
   */
  predicate Keeps(subspecialty: string, searchTerm: string, c: CaseEntry)
  {
    && (subspecialty == "" || c.subspecialty == subspecialty)
    && (searchTerm == "" || Includes(Searchable(c), searchTerm))
  }

  /** `caseIndex.filter(...)` with the predicate above. */
  function Filter(index: seq<CaseEntry>, subspecialty: string, searchTerm: string): (r: seq<CaseEntry>)
    ensures |r| <= |index|
  {
    if index == [] then []
    else
      (if Keeps(subspecialty, searchTerm, index[0]) then [index[0]] else [])
      + Filter(index[1..], subspecialty, searchTerm)
  }

  /** Every entry of the filtered list is an entry of the index that passes both tests. */
  lemma {:induction false} FilterSound(index: seq<CaseEntry>, subspecialty: string, searchTerm: string)
    ensures forall c :: c in Filter(index, subspecialty, searchTerm) ==> c in index && Keeps(subspecialty, searchTerm, c)
  {
    if index != [] {
      FilterSound(index[1..], subspecialty, searchTerm);
    }
  }

  /** `a` is `b` with some elements removed and the rest in their original order. */
  predicate IsSubsequence<T(==)>(a: seq<T>, b: seq<T>)
    decreases |b|
  {
    if a == [] then true
    else if b == [] then false
    else (a[0] == b[0] && IsSubsequence(a[1..], b[1..])) || IsSubsequence(a, b[1..])
  }

  /** The filtered list keeps the order of the index. */
  lemma {:induction false} FilterIsSubsequence(index: seq<CaseEntry>, subspecialty: string, searchTerm: string)
    ensures IsSubsequence(Filter(index, subspecialty, searchTerm), index)
  {
    if index != [] {
      var rest := Filter(index[1..], subspecialty, searchTerm);
      FilterIsSubsequence(index[1..], subspecialty, searchTerm);
      if Keeps(subspecialty, searchTerm, index[0]) {
        assert ([index[0]] + rest)[1..] == rest;
      } else {
        assert Filter(index, subspecialty, searchTerm) == rest;
      }
    }
  }

  /**
   * Every entry that passes appears in the result exactly as often as in the
   * index, and no other entry appears.
   */
  lemma {:induction false} FilterCounts(index: seq<CaseEntry>, subspecialty: string, searchTerm: string, c: CaseEntry)
    ensures multiset(Filter(index, subspecialty, searchTerm))[c]
         == if Keeps(subspecialty, searchTerm, c) then multiset(index)[c] else 0
  {
    if index != [] {
      var head := if Keeps(subspecialty, searchTerm, index[0]) then [index[0]] else [];
      var rest := Filter(index[1..], subspecialty, searchTerm);
      FilterCounts(index[1..], subspecialty, searchTerm, c);
      assert multiset(head + rest) == multiset(head) + multiset(rest);
      assert index == [index[0]] + index[1..];
      assert multiset(index) == multiset([index[0]]) + multiset(index[1..]);
    }
  }

  /** Nothing is kept exactly when no entry of the index passes. */
  lemma {:induction false} FilterEmptyIff(index: seq<CaseEntry>, subspecialty: string, searchTerm: string)
    ensures Filter(index, subspecialty, searchTerm) == []
        <==> forall c :: c in index ==> !Keeps(subspecialty, searchTerm, c)
  {
    if index != [] {
      FilterEmptyIff(index[1..], subspecialty, searchTerm);
      assert forall c :: c in index <==> c == index[0] || c in index[1..];
    }
  }

  /**
   * The search ignores the letter case of the title: two entries whose titles differ
   * only in the case of ASCII letters pass or fail together.
   */
  lemma SearchIgnoresTitleCase(subspecialty: string, searchTerm: string, c: CaseEntry, d: CaseEntry)
    requires c.caseId == d.caseId && c.subspecialty == d.subspecialty
    requires Lower(c.caseTitle) == Lower(d.caseTitle)
    ensures Keeps(subspecialty, searchTerm, c) <==> Keeps(subspecialty, searchTerm, d)
  {
    var id := IntToString(c.caseId) + " ";
    var sub := " " + c.subspecialty;
    LowerAppend(id + c.caseTitle, sub);
    LowerAppend(id, c.caseTitle);
    LowerAppend(id + d.caseTitle, sub);
    LowerAppend(id, d.caseTitle);
    assert Searchable(c) == Searchable(d);
  }

  /** Appending one entry to the index appends it to the filtered list exactly when it passes. */
  lemma {:induction false} FilterAppend(index: seq<CaseEntry>, c: CaseEntry, subspecialty: string, searchTerm: string)
    ensures Filter(index + [c], subspecialty, searchTerm)
         == Filter(index, subspecialty, searchTerm) + (if Keeps(subspecialty, searchTerm, c) then [c] else [])
  {
    var last := if Keeps(subspecialty, searchTerm, c) then [c] else [];
    if index == [] {
      assert [] + [c] == [c];
      assert Filter([c], subspecialty, searchTerm) == last + Filter([], subspecialty, searchTerm);
    } else {
      var head := if Keeps(subspecialty, searchTerm, index[0]) then [index[0]] else [];
      var rest := Filter(index[1..], subspecialty, searchTerm);
      FilterAppend(index[1..], c, subspecialty, searchTerm);
      assert (index + [c])[0] == index[0] && (index + [c])[1..] == index[1..] + [c];
      assert Filter(index + [c], subspecialty, searchTerm) == head + (rest + last);
      assert Filter(index, subspecialty, searchTerm) == head + rest;
      Assoc(head, rest, last);
    }
  }

  /** With neither a subspecialty nor a search term, the whole index is kept. */
  lemma {:induction false} FilterKeepsAll(index: seq<CaseEntry>)
    ensures Filter(index, "", "") == index
  {
    if index != [] {
      FilterKeepsAll(index[1..]);
      assert index == [index[0]] + index[1..];
    }
  }

  /** The cases the grid shows: the filtered list, or the whole index when it is empty. */
  function CasesToRender(filtered: seq<CaseEntry>, index: seq<CaseEntry>): (r: seq<CaseEntry>)
    ensures r == filtered || (filtered == [] && r == index)
    ensures |r| == 0 ==> |index| == 0 && |filtered| == 0
  {
    if |filtered| > 0 then filtered else index
  }

  /** A search that matches nothing shows every case of the index. */
  lemma NoMatchShowsAll(index: seq<CaseEntry>, subspecialty: string, searchTerm: string)
    requires forall c :: c in index ==> !Keeps(subspecialty, searchTerm, c)
    ensures CasesToRender(Filter(index, subspecialty, searchTerm), index) == index
  {
    FilterEmptyIff(index, subspecialty, searchTerm);
  }

  /** The counters above the grid: cases, sessions (four models each), MCQs (three per session). */
  datatype Metrics = Metrics(cases: nat, sessions: nat, mcqs: nat)

  function GridMetrics(shown: seq<CaseEntry>): (m: Metrics)
    ensures m.cases == |shown|
    ensures m.sessions == 4 * m.cases && m.mcqs == 12 * m.cases
  {
    Metrics(|shown|, |shown| * 4, |shown| * 4 * 3)
  }

  /** Some entry of the index belongs to subspecialty `s`. */
  ghost predicate HasSubspecialty(index: seq<CaseEntry>, s: string)
  {
    exists c :: c in index && c.subspecialty == s
  }

  /** The subspecialty options of the filter dropdown: distinct values, sorted. */
  function SubspecialtyOptions(index: seq<CaseEntry>): (r: seq<string>)
    ensures Sorted(r) && NoDuplicates(r)
    ensures forall s :: s in r <==> HasSubspecialty(index, s)
  {
    var all := seq(|index|, k requires 0 <= k < |index| => index[k].subspecialty);
    assert forall s :: s in all <==> HasSubspecialty(index, s) by {
      forall s | s in all ensures exists c :: c in index && c.subspecialty == s {
        var k :| 0 <= k < |all| && all[k] == s;
        assert index[k] in index;
      }
      forall s | HasSubspecialty(index, s) ensures s in all {
        var c :| c in index && c.subspecialty == s;
        var k :| 0 <= k < |index| && index[k] == c;
        assert all[k] == s;
      }
    }
    var distinct := Dedup(all);
    var r := Sort(distinct);
    NoDuplicatesPermutation(distinct, r);
    assert forall s :: s in r <==> s in distinct by {
      forall s ensures s in r <==> s in distinct {
        assert s in r <==> s in multiset(r);
      }
    }
    r
  }

  /**
   * The options depend only on which subspecialties occur, not on the order or
   * multiplicity of the entries.
   */
  lemma OptionsDependOnlyOnSubspecialties(a: seq<CaseEntry>, b: seq<CaseEntry>)
    requires forall s :: HasSubspecialty(a, s) <==> HasSubspecialty(b, s)
    ensures SubspecialtyOptions(a) == SubspecialtyOptions(b)
  {
    SortedSetUnique(SubspecialtyOptions(a), SubspecialtyOptions(b));
  }

  /** The fixed table of badge names. */
  const ShortNames: map<string, string> := map[
    "Breast Imaging" := "Breast",
    "Cardiovascular Imaging" := "Cardiovascular",
    "Gastrointestinal & Hepatobiliary Imaging" := "GI/Hepatobiliary",
    "Interventional Radiology" := "IR",
    "Musculoskeletal Imaging" := "MSK",
    "Neuroradiology & HFN" := "Neuro/HFN",
    "Pediatric & Emergency Radiology" := "Peds/Emergency",
    "Thoracic Imaging" := "Thoracic",
    "Urogenital Imaging" := "Urogenital",
    "Physics" := "Physics"
  ]

  /** `shortNames[sub] || sub`: the table entry when there is a non-empty one, else the name itself. */
  function ShortenSubspecialty(sub: string): (r: string)
    ensures sub in ShortNames ==> r == ShortNames[sub]
    ensures sub !in ShortNames ==> r == sub
    ensures r != "" || sub == ""
  {
    if sub in ShortNames && ShortNames[sub] != "" then ShortNames[sub] else sub
  }

  /** What a grid card shows: its `data-case-id` text, the badge and the title. */
  datatype Card = Card(caseIdAttr: string, badge: string, title: string)

  /** The card of one entry; the title loses its backslashes. */
  function CardOf(c: CaseEntry): (card: Card)
    ensures IsIntLiteral(card.caseIdAttr) && ParseInt(card.caseIdAttr) == c.caseId
    ensures card.title == ReplaceAll(c.caseTitle, "\\", "")
    ensures '\\' !in card.title && |card.title| <= |c.caseTitle|
    ensures '\\' !in c.caseTitle ==> card.title == c.caseTitle
    ensures card.badge == ShortenSubspecialty(c.subspecialty)
  {
    ParseIntToString(c.caseId);
    ReplaceAllRemoves(c.caseTitle, '\\', "");
    ReplaceAllShrinks(c.caseTitle, "\\", "");
    var title := ReplaceAll(c.caseTitle, "\\", "");
    var card := Card(IntToString(c.caseId), ShortenSubspecialty(c.subspecialty), title);
    if '\\' in c.caseTitle then card
    else ReplaceAllAbsentHead(c.caseTitle, "\\", ""); card
  }

  /** The grid's cards, one per shown case, in order. */
  function CardsOf(shown: seq<CaseEntry>): (cards: seq<Card>)
    ensures |cards| == |shown|
    ensures forall k :: 0 <= k < |shown| ==> cards[k] == CardOf(shown[k])
  {
    seq(|shown|, k requires 0 <= k < |shown| => CardOf(shown[k]))
  }
}
