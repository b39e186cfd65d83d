/**
 * WSCApi: builds the map from accepted tarantula species name to its
 * synonyms out of World Spider Catalog pages.
 *
 * The pages are inputs: the genera table as its rows (genus, species-list
 * URL), and each species-list page as its species titles, each with the
 * `<i>` contents of the element that follows it (the synonym candidates).
 * A request that throws an IOException is an absent page.
 */
module WSCApi {
  import opened Wrappers
  import opened JavaStrings
  import opened TreeMaps

  /** One `speciesTitle` element: the species name and the candidate synonyms after it. */
  datatype SpeciesTitle = SpeciesTitle(name: string, candidates: seq<string>)

  // ---------------------------------------------------------------------
  // The synonym filter of getSpeciesWithSynonymsInGenus
  // ---------------------------------------------------------------------

  /** The four rejection rules, checked against the species' list as it stands. */
  predicate Rejected(candidate: string, own: string, keys: set<string>, accepted: seq<string>)
  {
    |Split(candidate, ' ')| == 1 || candidate == own || candidate in keys || candidate in accepted
  }

  /** What the first three rules admit, whatever has been accepted so far. */
  predicate Admissible(candidate: string, own: string, keys: set<string>)
  {
    |Split(candidate, ' ')| != 1 && candidate != own && candidate !in keys
  }

  predicate NoDuplicates(s: seq<string>)
  {
    forall i, j :: 0 <= i < j < |s| ==> s[i] != s[j]
  }

  /** The synonym loop for one title: appends, in order, every candidate that no rule rejects. */
  function AcceptInto(list: seq<string>, own: string, keys: set<string>, candidates: seq<string>): seq<string>
    decreases |candidates|
  {
    if candidates == [] then list
    else
      var c := candidates[0];
      AcceptInto(if Rejected(c, own, keys, list) then list else list + [c], own, keys, candidates[1..])
  }

  /** `a` is `b` with some elements left out, the rest in order. */
  predicate SubsequenceOf(a: seq<string>, b: seq<string>)
    decreases |b|
  {
    a == [] || (b != [] && ((a[0] == b[0] && SubsequenceOf(a[1..], b[1..])) || SubsequenceOf(a, b[1..])))
  }

  /** The filter only appends: the list it started from is kept in front. */
  lemma {:induction false} AcceptIntoExtends(list: seq<string>, own: string, keys: set<string>, candidates: seq<string>)
    ensures |list| <= |AcceptInto(list, own, keys, candidates)|
    ensures AcceptInto(list, own, keys, candidates)[..|list|] == list
    decreases |candidates|
  {
    if candidates != [] {
      var c := candidates[0];
      var next := if Rejected(c, own, keys, list) then list else list + [c];
      AcceptIntoExtends(next, own, keys, candidates[1..]);
      assert next[..|list|] == list;
    }
  }

  /** A list without duplicates stays without duplicates. */
  lemma {:induction false} AcceptIntoNoDuplicates(list: seq<string>, own: string, keys: set<string>, candidates: seq<string>)
    requires NoDuplicates(list)
    ensures NoDuplicates(AcceptInto(list, own, keys, candidates))
    decreases |candidates|
  {
    if candidates != [] {
      var c := candidates[0];
      var next := if Rejected(c, own, keys, list) then list else list + [c];
      AcceptIntoNoDuplicates(next, own, keys, candidates[1..]);
    }
  }

  /** Every appended synonym passes the first three rules. */
  lemma {:induction false} AcceptIntoAdmissible(list: seq<string>, own: string, keys: set<string>, candidates: seq<string>)
    ensures var r := AcceptInto(list, own, keys, candidates);
            forall i :: |list| <= i < |r| ==> Admissible(r[i], own, keys)
    decreases |candidates|
  {
    if candidates != [] {
      var c := candidates[0];
      var next := if Rejected(c, own, keys, list) then list else list + [c];
      AcceptIntoAdmissible(next, own, keys, candidates[1..]);
      AcceptIntoExtends(next, own, keys, candidates[1..]);
    }
  }

  /** The appended synonyms are the candidates with some left out, in their order of appearance. */
  lemma {:induction false} AcceptIntoSubsequence(list: seq<string>, own: string, keys: set<string>, candidates: seq<string>)
    ensures |list| <= |AcceptInto(list, own, keys, candidates)|
    ensures SubsequenceOf(AcceptInto(list, own, keys, candidates)[|list|..], candidates)
    decreases |candidates|
  {
    AcceptIntoExtends(list, own, keys, candidates);
    if candidates != [] {
      var c := candidates[0];
      var r := AcceptInto(list, own, keys, candidates);
      if Rejected(c, own, keys, list) {
        AcceptIntoSubsequence(list, own, keys, candidates[1..]);
      } else {
        AcceptIntoSubsequence(list + [c], own, keys, candidates[1..]);
        AcceptIntoExtends(list + [c], own, keys, candidates[1..]);
        assert r[|list|..][0] == c;
        assert r[|list|..][1..] == r[|list| + 1..];
      }
    }
  }

  /** Nothing admissible is lost: every such candidate ends up in the list. */
  lemma {:induction false} AcceptIntoComplete(list: seq<string>, own: string, keys: set<string>, candidates: seq<string>, c: string)
    requires c in list || (c in candidates && Admissible(c, own, keys))
    ensures c in AcceptInto(list, own, keys, candidates)
    decreases |candidates|
  {
    if candidates != [] {
      var d := candidates[0];
      var next := if Rejected(d, own, keys, list) then list else list + [d];
      assert c in list ==> c in next;
      if c !in list && c !in candidates[1..] {
        assert c == d;
      }
      AcceptIntoComplete(next, own, keys, candidates[1..], c);
    }
  }

  /**
   * The own-name rule never decides anything in a genus: the species' own
   * name is a key, and keys are rejected anyway.
   */
  lemma OwnNameRuleRedundant(candidate: string, own: string, keys: set<string>, accepted: seq<string>)
    requires own in keys
    ensures Rejected(candidate, own, keys, accepted) <==>
            |Split(candidate, ' ')| == 1 || candidate in keys || candidate in accepted
  {
  }

  /**
   * What the one-token rule lets through: names with a second space-separated
   * field, and also blank names (spaces only), which split into no token at all.
   */
  lemma OneTokenRule(candidate: string)
    ensures |Split(candidate, ' ')| != 1 <==>
            HasFieldAfterDelimiter(candidate, ' ') || (candidate != "" && !HasNonDelimiter(candidate, ' '))
  {
    SplitHasSecond(candidate, ' ');
    SplitEmpty(candidate, ' ');
  }

  /** A blank candidate passes every rule the first time it is seen. */
  lemma BlankCandidateAccepted(own: string, keys: set<string>)
    requires " " != own && " " !in keys
    ensures AcceptInto([], own, keys, [" "]) == [" "]
  {
    assert Split(" ", ' ') == [] by {
      SplitEmpty(" ", ' ');
    }
  }

  // ---------------------------------------------------------------------
  // getSpeciesWithSynonymsInGenus
  // ---------------------------------------------------------------------

  /** The species names of a genus page. */
  function NameSet(titles: seq<SpeciesTitle>): set<string>
  {
    set t | t in titles :: t.name
  }

  /** The synonym loops over all titles, on the map from name to list. */
  function SynonymsSpec(lists: map<string, seq<string>>, keys: set<string>, titles: seq<SpeciesTitle>): (r: map<string, seq<string>>)
    requires forall t :: t in titles ==> t.name in lists
    ensures r.Keys == lists.Keys
    decreases |titles|
  {
    if titles == [] then lists
    else
      var t := titles[0];
      SynonymsSpec(lists[t.name := AcceptInto(lists[t.name], t.name, keys, t.candidates)], keys, titles[1..])
  }

  /** Each title's name mapped to the empty list: the state after the first loop. */
  function EmptyLists(titles: seq<SpeciesTitle>): (r: map<string, seq<string>>)
    ensures r.Keys == NameSet(titles)
    ensures forall n :: n in r ==> r[n] == []
  {
    map n | n in NameSet(titles) :: []
  }

  /** The map `getSpeciesWithSynonymsInGenus` returns for a genus page. */
  function GenusSpec(titles: seq<SpeciesTitle>): (r: map<string, seq<string>>)
    ensures r.Keys == NameSet(titles)
  {
    SynonymsSpec(EmptyLists(titles), NameSet(titles), titles)
  }

  /** A property every list of the map keeps: no duplicates, and only admissible synonyms for its species. */
  predicate WellFiltered(lists: map<string, seq<string>>, keys: set<string>)
  {
    forall n :: n in lists ==> NoDuplicates(lists[n]) && forall i :: 0 <= i < |lists[n]| ==> Admissible(lists[n][i], n, keys)
  }

  lemma {:induction false} SynonymsSpecWellFiltered(lists: map<string, seq<string>>, keys: set<string>, titles: seq<SpeciesTitle>)
    requires forall t :: t in titles ==> t.name in lists
    requires WellFiltered(lists, keys)
    ensures WellFiltered(SynonymsSpec(lists, keys, titles), keys)
    decreases |titles|
  {
    if titles != [] {
      var t := titles[0];
      var l := lists[t.name];
      AcceptIntoNoDuplicates(l, t.name, keys, t.candidates);
      AcceptIntoAdmissible(l, t.name, keys, t.candidates);
      AcceptIntoExtends(l, t.name, keys, t.candidates);
      var next := lists[t.name := AcceptInto(l, t.name, keys, t.candidates)];
      assert WellFiltered(next, keys);
      SynonymsSpecWellFiltered(next, keys, titles[1..]);
    }
  }

  /**
   * Each synonym list of a genus has no duplicates, and none of its entries is
   * a single token, the species' own name or any species name of the genus.
   */
  lemma GenusSpecWellFiltered(titles: seq<SpeciesTitle>)
    ensures WellFiltered(GenusSpec(titles), NameSet(titles))
  {
    SynonymsSpecWellFiltered(EmptyLists(titles), NameSet(titles), titles);
  }

  lemma {:induction false} SynonymsSpecKeeps(lists: map<string, seq<string>>, keys: set<string>, titles: seq<SpeciesTitle>, n: string, c: string)
    requires forall t :: t in titles ==> t.name in lists
    requires n in lists && c in lists[n]
    ensures c in SynonymsSpec(lists, keys, titles)[n]
    decreases |titles|
  {
    if titles != [] {
      var t := titles[0];
      var next := lists[t.name := AcceptInto(lists[t.name], t.name, keys, t.candidates)];
      if t.name == n {
        AcceptIntoComplete(lists[n], n, keys, t.candidates, c);
      }
      SynonymsSpecKeeps(next, keys, titles[1..], n, c);
    }
  }

  lemma {:induction false} SynonymsSpecComplete(lists: map<string, seq<string>>, keys: set<string>, titles: seq<SpeciesTitle>,
                                                k: nat, c: string)
    requires forall t :: t in titles ==> t.name in lists
    requires k < |titles| && c in titles[k].candidates && Admissible(c, titles[k].name, keys)
    ensures c in SynonymsSpec(lists, keys, titles)[titles[k].name]
    decreases |titles|
  {
    var t := titles[0];
    var next := lists[t.name := AcceptInto(lists[t.name], t.name, keys, t.candidates)];
    assert forall u :: u in titles[1..] ==> u in titles;
    if k == 0 {
      AcceptIntoComplete(lists[t.name], t.name, keys, t.candidates, c);
      SynonymsSpecKeeps(next, keys, titles[1..], t.name, c);
    } else {
      assert titles[1..][k - 1] == titles[k];
      SynonymsSpecComplete(next, keys, titles[1..], k - 1, c);
    }
  }

  /** Every candidate that passes the first three rules is listed under its species. */
  lemma GenusSpecComplete(titles: seq<SpeciesTitle>, k: nat, c: string)
    requires k < |titles| && c in titles[k].candidates && Admissible(c, titles[k].name, NameSet(titles))
    ensures c in GenusSpec(titles)[titles[k].name]
  {
    SynonymsSpecComplete(EmptyLists(titles), NameSet(titles), titles, k, c);
  }

  /** Species names that occur once each on a genus page. */
  predicate DistinctNames(titles: seq<SpeciesTitle>)
  {
    forall i, j :: 0 <= i < j < |titles| ==> titles[i].name != titles[j].name
  }

  /** A list whose species no remaining title names is left as it is. */
  lemma {:induction false} SynonymsSpecUntouched(lists: map<string, seq<string>>, keys: set<string>, titles: seq<SpeciesTitle>, n: string)
    requires forall t :: t in titles ==> t.name in lists
    requires n in lists && forall i :: 0 <= i < |titles| ==> titles[i].name != n
    ensures SynonymsSpec(lists, keys, titles)[n] == lists[n]
    decreases |titles|
  {
    if titles != [] {
      var t := titles[0];
      var next := lists[t.name := AcceptInto(lists[t.name], t.name, keys, t.candidates)];
      assert forall i :: 0 <= i < |titles[1..]| ==> titles[1..][i] == titles[i + 1];
      SynonymsSpecUntouched(next, keys, titles[1..], n);
    }
  }

  /** With distinct names, a species' list is its own title's candidates filtered into its starting list. */
  lemma {:induction false} SynonymsSpecOwnTitle(lists: map<string, seq<string>>, keys: set<string>, titles: seq<SpeciesTitle>, k: nat)
    requires forall t :: t in titles ==> t.name in lists
    requires DistinctNames(titles) && k < |titles|
    ensures SynonymsSpec(lists, keys, titles)[titles[k].name]
            == AcceptInto(lists[titles[k].name], titles[k].name, keys, titles[k].candidates)
    decreases |titles|
  {
    var t := titles[0];
    var next := lists[t.name := AcceptInto(lists[t.name], t.name, keys, t.candidates)];
    assert forall i :: 0 <= i < |titles[1..]| ==> titles[1..][i] == titles[i + 1];
    if k == 0 {
      SynonymsSpecUntouched(next, keys, titles[1..], t.name);
    } else {
      assert titles[1..][k - 1] == titles[k];
      SynonymsSpecOwnTitle(next, keys, titles[1..], k - 1);
    }
  }

  /**
   * When each species appears once on the page, its synonym list is exactly
   * its own candidates filtered from an empty list, so the synonyms appear in
   * the order the page lists them.
   */
  lemma GenusSpecOwnCandidates(titles: seq<SpeciesTitle>, k: nat)
    requires DistinctNames(titles) && k < |titles|
    ensures GenusSpec(titles)[titles[k].name] == AcceptInto([], titles[k].name, NameSet(titles), titles[k].candidates)
    ensures SubsequenceOf(GenusSpec(titles)[titles[k].name], titles[k].candidates)
  {
    var keys := NameSet(titles);
    var name := titles[k].name;
    SynonymsSpecOwnTitle(EmptyLists(titles), keys, titles, k);
    AcceptIntoSubsequence([], name, keys, titles[k].candidates);
    var r := AcceptInto([], name, keys, titles[k].candidates);
    assert r[0..] == r;
  }

  /**
   * `getSpeciesWithSynonymsInGenus`: puts every species name with an empty
   * list, then appends the synonyms that pass the rejection rules.
   */
  method SpeciesWithSynonymsInGenus(species: seq<SpeciesTitle>) returns (speciesWithSynonyms: TreeMap<seq<string>>)
    ensures speciesWithSynonyms.Valid()
    ensures speciesWithSynonyms.ToMap() == GenusSpec(species)
  {
    speciesWithSynonyms := PutSpecies(species);
    speciesWithSynonyms := AddAllSynonyms(speciesWithSynonyms, species, NameSet(species));
  }

  /** The first loop of `getSpeciesWithSynonymsInGenus`: every species name with an empty list. */
  method PutSpecies(species: seq<SpeciesTitle>) returns (speciesWithSynonyms: TreeMap<seq<string>>)
    ensures speciesWithSynonyms.Valid()
    ensures speciesWithSynonyms.ToMap() == EmptyLists(species)
  {
    speciesWithSynonyms := Empty();
    var i := 0;
    while i < |species|
      invariant 0 <= i <= |species|
      invariant speciesWithSynonyms.Valid()
      invariant speciesWithSynonyms.ToMap() == EmptyLists(species[..i])
    {
      assert NameSet(species[..i + 1]) == NameSet(species[..i]) + {species[i].name} by {
        assert species[..i + 1] == species[..i] + [species[i]];
      }
      speciesWithSynonyms := speciesWithSynonyms.Put(species[i].name, []);
      i := i + 1;
    }
    assert species[..i] == species;
  }

  /** The second loop of `getSpeciesWithSynonymsInGenus`: the synonyms of every title, in page order. */
  method AddAllSynonyms(m: TreeMap<seq<string>>, species: seq<SpeciesTitle>, ghost keys: set<string>)
    returns (speciesWithSynonyms: TreeMap<seq<string>>)
    requires m.Valid() && m.ToMap().Keys == keys
    requires forall t :: t in species ==> t.name in keys
    ensures speciesWithSynonyms.Valid()
    ensures speciesWithSynonyms.ToMap() == SynonymsSpec(m.ToMap(), keys, species)
  {
    speciesWithSynonyms := m;
    ghost var goal := SynonymsSpec(m.ToMap(), keys, species);
    var i := 0;
    while i < |species|
      invariant 0 <= i <= |species|
      invariant speciesWithSynonyms.Valid()
      invariant speciesWithSynonyms.ToMap().Keys == keys
      invariant SynonymsSpec(speciesWithSynonyms.ToMap(), keys, species[i..]) == goal
    {
      var sp := species[i];
      SynonymsSpecStep(speciesWithSynonyms.ToMap(), keys, species[i..]);
      assert species[i..][1..] == species[i + 1..];
      speciesWithSynonyms := AddSynonyms(speciesWithSynonyms, sp, keys);
      i := i + 1;
    }
    assert species[i..] == [];
  }

  /**
   * The inner loop of `getSpeciesWithSynonymsInGenus` for one species title:
   * each candidate is skipped if a rule rejects it, else appended to the
   * species' list. The map's keys are `keys` throughout.
   */
  method AddSynonyms(speciesWithSynonyms: TreeMap<seq<string>>, sp: SpeciesTitle, ghost keys: set<string>)
    returns (r: TreeMap<seq<string>>)
    requires speciesWithSynonyms.Valid() && sp.name in speciesWithSynonyms.ToMap()
    requires speciesWithSynonyms.ToMap().Keys == keys
    ensures r.Valid()
    ensures r.ToMap() == speciesWithSynonyms.ToMap()[sp.name := AcceptInto(speciesWithSynonyms.ToMap()[sp.name], sp.name, keys, sp.candidates)]
  {
    ghost var before := speciesWithSynonyms.ToMap();
    ghost var goalList := AcceptInto(before[sp.name], sp.name, keys, sp.candidates);
    r := speciesWithSynonyms;
    var synonymsContainer := sp.candidates;
    var j := 0;
    while j < |synonymsContainer|
      invariant 0 <= j <= |synonymsContainer|
      invariant r.Valid()
      invariant sp.name in r.ToMap()
      invariant r.ToMap() == before[sp.name := r.ToMap()[sp.name]]
      invariant AcceptInto(r.ToMap()[sp.name], sp.name, keys, synonymsContainer[j..]) == goalList
    {
      var synonym := synonymsContainer[j];
      var speciesName := sp.name;
      var list := r.ToMap()[speciesName];
      assert synonymsContainer[j..][1..] == synonymsContainer[j + 1..];
      assert (synonym in r.ToMap()) == (synonym in keys);
      if |Split(synonym, ' ')| == 1 || synonym == speciesName || synonym in r.ToMap() || synonym in list {
        j := j + 1;
        continue;
      }
      ghost var r0 := r;
      r := r.Put(speciesName, list + [synonym]);
      UpdateTwice(before, speciesName, r0.ToMap()[speciesName], list + [synonym]);
      j := j + 1;
    }
    assert synonymsContainer[j..] == [];
  }

  /** One title of the synonym loops. */
  lemma SynonymsSpecStep(lists: map<string, seq<string>>, keys: set<string>, titles: seq<SpeciesTitle>)
    requires forall t :: t in titles ==> t.name in lists
    requires titles != []
    ensures SynonymsSpec(lists, keys, titles)
            == SynonymsSpec(lists[titles[0].name := AcceptInto(lists[titles[0].name], titles[0].name, keys, titles[0].candidates)],
                            keys, titles[1..])
  {
  }

  // ---------------------------------------------------------------------
  // getTarantulaGeneraWithSpeciesUrl
  // ---------------------------------------------------------------------

  /** The rows put into a map one after another: a later row for the same genus wins. */
  function RowsMap(rows: seq<(string, string)>): (m: map<string, string>)
    ensures m.Keys == set r | r in rows :: r.0
  {
    if rows == [] then map[]
    else
      var m := RowsMap(rows[..|rows| - 1]);
      assert rows == rows[..|rows| - 1] + [rows[|rows| - 1]];
      m[rows[|rows| - 1].0 := rows[|rows| - 1].1]
  }

  /** Each genus maps to the URL of its last row. */
  lemma {:induction false} RowsMapLastWins(rows: seq<(string, string)>, i: nat)
    requires i < |rows|
    requires forall j :: i < j < |rows| ==> rows[j].0 != rows[i].0
    ensures RowsMap(rows)[rows[i].0] == rows[i].1
    decreases |rows|
  {
    if i < |rows| - 1 {
      RowsMapLastWins(rows[..|rows| - 1], i);
    }
  }

  /** The TreeMap the rows are put into, one after another. */
  function PutRows(rows: seq<(string, string)>): (t: TreeMap<string>)
    ensures t.Valid() && t.ToMap() == RowsMap(rows)
  {
    if rows == [] then Empty() else PutRows(rows[..|rows| - 1]).Put(rows[|rows| - 1].0, rows[|rows| - 1].1)
  }

  /** The genus map for a genera table: its rows after the header. */
  function GeneraOf(generaTableRows: seq<(string, string)>): (t: TreeMap<string>)
    ensures t.Valid()
  {
    if generaTableRows == [] then Empty() else PutRows(generaTableRows[1..])
  }

  /**
   * `getTarantulaGeneraWithSpeciesUrl`, given the rows of the genera table:
   * the first row is the header and is skipped.
   */
  method GeneraWithSpeciesUrl(generaTableRows: seq<(string, string)>) returns (genusToLsid: TreeMap<string>)
    ensures genusToLsid == GeneraOf(generaTableRows)
    ensures genusToLsid.Valid()
    ensures genusToLsid.ToMap() == if generaTableRows == [] then map[] else RowsMap(generaTableRows[1..])
  {
    genusToLsid := Empty();
    var i := 1;
    while i < |generaTableRows|
      invariant 1 <= i && (i <= |generaTableRows| || generaTableRows == [])
      invariant genusToLsid == if generaTableRows == [] then Empty() else PutRows(generaTableRows[1..i])
    {
      var row := generaTableRows[i];
      assert generaTableRows[1..i + 1][..i - 1] == generaTableRows[1..i];
      genusToLsid := genusToLsid.Put(row.0, row.1);
      i := i + 1;
    }
    if generaTableRows != [] {
      assert generaTableRows[1..i] == generaTableRows[1..];
    }
  }

  /** The header row is not a genus unless some later row names the same genus. */
  lemma HeaderSkipped(generaTableRows: seq<(string, string)>)
    requires generaTableRows != []
    requires forall j :: 0 < j < |generaTableRows| ==> generaTableRows[j].0 != generaTableRows[0].0
    ensures generaTableRows[0].0 !in GeneraOf(generaTableRows).ToMap()
  {
  }

  // ---------------------------------------------------------------------
  // getAllSpeciesWihSynonyms
  // ---------------------------------------------------------------------

  /** The genus maps merged in order with `putAll`: a later genus overrides an earlier one. */
  function MergeSpec(acc: map<string, seq<string>>, genera: seq<string>, pages: map<string, seq<SpeciesTitle>>,
                     urls: map<string, string>): Option<map<string, seq<string>>>
    requires forall g :: g in genera ==> g in urls
    decreases |genera|
  {
    if genera == [] then Some(acc)
    else
      var url := urls[genera[0]];
      if url !in pages then None
      else MergeSpec(acc + GenusSpec(pages[url]), genera[1..], pages, urls)
  }

  /** The keys after merging are the old ones plus every species of every genus. */
  lemma {:induction false} MergeSpecKeys(acc: map<string, seq<string>>, genera: seq<string>, pages: map<string, seq<SpeciesTitle>>,
                                         urls: map<string, string>)
    requires forall g :: g in genera ==> g in urls
    requires MergeSpec(acc, genera, pages, urls).Some?
    ensures forall k :: k in MergeSpec(acc, genera, pages, urls).value <==>
              k in acc || exists g :: g in genera && urls[g] in pages &&
                                       k in NameSet(pages[urls[g]])
    decreases |genera|
  {
    if genera != [] {
      var url := urls[genera[0]];
      MergeSpecKeys(acc + GenusSpec(pages[url]), genera[1..], pages, urls);
    }
  }

  /** A species in the last genus that lists it gets that genus's synonyms. */
  lemma {:induction false} MergeSpecLastWins(acc: map<string, seq<string>>, genera: seq<string>, pages: map<string, seq<SpeciesTitle>>,
                                             urls: map<string, string>, i: nat, k: string)
    requires forall g :: g in genera ==> g in urls
    requires MergeSpec(acc, genera, pages, urls).Some?
    requires i < |genera|
    requires var url := urls[genera[i]]; url in pages && k in NameSet(pages[url])
    requires forall j :: i < j < |genera| ==>
               var url := urls[genera[j]]; url in pages ==> k !in NameSet(pages[url])
    ensures k in MergeSpec(acc, genera, pages, urls).value
    ensures MergeSpec(acc, genera, pages, urls).value[k] == GenusSpec(pages[urls[genera[i]]])[k]
    decreases |genera|
  {
    var url := urls[genera[0]];
    var acc' := acc + GenusSpec(pages[url]);
    if i == 0 {
      MergeSpecUntouched(acc', genera[1..], pages, urls, k);
    } else {
      forall j | i - 1 < j < |genera[1..]|
        ensures var url := urls[genera[1..][j]];
                url in pages ==> k !in NameSet(pages[url])
      {
        assert genera[1..][j] == genera[j + 1];
      }
      MergeSpecLastWins(acc', genera[1..], pages, urls, i - 1, k);
    }
  }

  /** A species no later genus lists keeps its value. */
  lemma {:induction false} MergeSpecUntouched(acc: map<string, seq<string>>, genera: seq<string>, pages: map<string, seq<SpeciesTitle>>,
                                              urls: map<string, string>, k: string)
    requires forall g :: g in genera ==> g in urls
    requires MergeSpec(acc, genera, pages, urls).Some? && k in acc
    requires forall j :: 0 <= j < |genera| ==>
               var url := urls[genera[j]]; url in pages ==> k !in NameSet(pages[url])
    ensures k in MergeSpec(acc, genera, pages, urls).value && MergeSpec(acc, genera, pages, urls).value[k] == acc[k]
    decreases |genera|
  {
    if genera != [] {
      var url := urls[genera[0]];
      forall j | 0 <= j < |genera[1..]|
        ensures var url := urls[genera[1..][j]];
                url in pages ==> k !in NameSet(pages[url])
      {
        assert genera[1..][j] == genera[j + 1];
      }
      MergeSpecUntouched(acc + GenusSpec(pages[url]), genera[1..], pages, urls, k);
    }
  }

  /**
   * `getAllSpeciesWihSynonyms`: for every genus, in ascending genus order,
   * fetches its species list and merges it in with `putAll`. None when a
   * request throws (the genera table, or any genus page).
   */
  method AllSpeciesWithSynonyms(generaTable: Option<seq<(string, string)>>, genusPages: map<string, seq<SpeciesTitle>>)
    returns (allSpeciesWithSynonyms: Option<TreeMap<seq<string>>>)
    ensures generaTable.None? ==> allSpeciesWithSynonyms.None?
    ensures generaTable.Some? ==>
      var genera := GeneraOf(generaTable.value);
      var spec := MergeSpec(map[], genera.Keys(), genusPages, genera.ToMap());
      && (allSpeciesWithSynonyms.Some? <==> spec.Some?)
      && (allSpeciesWithSynonyms.Some? ==>
            allSpeciesWithSynonyms.value.Valid() && allSpeciesWithSynonyms.value.ToMap() == spec.value)
  {
    if generaTable.None? {
      return None;
    }
    var all := Empty();
    var genusToSpeciesUrl := GeneraWithSpeciesUrl(generaTable.value);
    ghost var urls := genusToSpeciesUrl.ToMap();
    var genera := genusToSpeciesUrl.Keys();
    ghost var goal := MergeSpec(map[], genera, genusPages, urls);
    var i := 0;
    while i < |genera|
      invariant 0 <= i <= |genera|
      invariant all.Valid()
      invariant MergeSpec(all.ToMap(), genera[i..], genusPages, urls) == goal
    {
      assert genera[i..][1..] == genera[i + 1..];
      var url := genusToSpeciesUrl.ToMap()[genera[i]];
      if url !in genusPages {
        return None;
      }
      var speciesWithSynonyms := SpeciesWithSynonymsInGenus(genusPages[url]);
      all := all.PutAll(speciesWithSynonyms);
      i := i + 1;
    }
    assert genera[i..] == [];
    return Some(all);
  }
}
