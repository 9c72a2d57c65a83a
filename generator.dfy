/** The per-entry loop of the generator's `main`. The output directory is a
    map from file name to file content; writing a file replaces its entry. */
module Generator {
  import opened Options
  import opened Text
  import opened Citations

  /** `if (!key) continue;`: an entry is written only when its citation key
      is present and not empty. */
  predicate HasKey(e: Entry)
  {
    e.citationKey.Some? && e.citationKey.value != ""
  }

  /** `${safeFilename(key)}.bib` */
  function BibFileName(e: Entry): string
  {
    SafeFilename(e.citationKey) + ".bib"
  }

  /** How many of the entries the loop writes, counted one entry at a time. */
  function KeyedCount(es: seq<Entry>): nat
  {
    if es == [] then 0
    else KeyedCount(es[..|es| - 1]) + (if HasKey(es[|es| - 1]) then 1 else 0)
  }

  /** The positions of the entries that have a key. */
  function KeyedIndices(es: seq<Entry>): set<nat>
  {
    set i: nat | i < |es| && HasKey(es[i])
  }

  /** The names of the files the entries are written to. */
  function WrittenNames(es: seq<Entry>): set<string>
  {
    set i | 0 <= i < |es| && HasKey(es[i]) :: BibFileName(es[i])
  }

  /** The directory `m` after the entries `es` have been written in order. */
  function Emitted(m: map<string, string>, es: seq<Entry>): map<string, string>
  {
    if es == [] then m
    else
      var prior := Emitted(m, es[..|es| - 1]);
      var e := es[|es| - 1];
      if HasKey(e) then prior[BibFileName(e) := EntryToBib(e)] else prior
  }

  /** The output directory: its files by name. */
  class OutputDir {
    var files: map<string, string>

    constructor (existing: map<string, string>)
      ensures files == existing
    {
      files := existing;
    }

    /** `fs.writeFileSync`: creates the file, or replaces its content. */
    method WriteFile(name: string, content: string)
      modifies this
      ensures files == old(files)[name := content]
    {
      files := files[name := content];
    }
  }

  /** The loop of `main`: each entry with a key is serialised into the file
      named after its sanitised key, and `written` counts those entries. */
  method GenerateEntryFiles(dir: OutputDir, parsed: seq<Entry>) returns (written: nat)
    modifies dir
    ensures written == KeyedCount(parsed)
    ensures dir.files == Emitted(old(dir.files), parsed)
  {
    written := 0;
    for i := 0 to |parsed|
      invariant written == KeyedCount(parsed[..i])
      invariant dir.files == Emitted(old(dir.files), parsed[..i])
    {
      var e := parsed[i];
      assert parsed[..i + 1][..i] == parsed[..i];
      if !HasKey(e) {
        continue;
      }
      var filename := BibFileName(e);
      dir.WriteFile(filename, EntryToBib(e));
      written := written + 1;
    }
    assert parsed[..|parsed|] == parsed;
  }

  // ---------------------------------------------------------------------
  // Lemmas

  /** `written` is the number of entries that have a key. */
  lemma {:induction false} KeyedCountIsCardinality(es: seq<Entry>)
    ensures KeyedCount(es) == |KeyedIndices(es)| <= |es|
  {
    if es != [] {
      var n := |es| - 1;
      var p := es[..n];
      KeyedCountIsCardinality(p);
      var before := KeyedIndices(p);
      assert forall i: nat :: i < n ==> p[i] == es[i];
      if HasKey(es[n]) {
        assert KeyedIndices(es) == before + {n};
      } else {
        assert KeyedIndices(es) == before;
      }
    }
  }

  /** A file no entry is written to keeps its content, or stays absent. */
  lemma {:induction false} EmittedUntouched(m: map<string, string>, es: seq<Entry>, name: string)
    requires forall k :: 0 <= k < |es| && HasKey(es[k]) ==> BibFileName(es[k]) != name
    ensures name in Emitted(m, es) <==> name in m
    ensures name in m ==> Emitted(m, es)[name] == m[name]
  {
    if es != [] {
      var p := es[..|es| - 1];
      assert forall k :: 0 <= k < |p| ==> p[k] == es[k];
      EmittedUntouched(m, p, name);
    }
  }

  /** A file holds the serialisation of the last entry written to it: later
      entries with the same sanitised name overwrite earlier ones. */
  lemma {:induction false} EmittedLastWriterWins(m: map<string, string>, es: seq<Entry>, j: nat)
    requires j < |es| && HasKey(es[j])
    requires forall k :: j < k < |es| && HasKey(es[k]) ==> BibFileName(es[k]) != BibFileName(es[j])
    ensures BibFileName(es[j]) in Emitted(m, es)
    ensures Emitted(m, es)[BibFileName(es[j])] == EntryToBib(es[j])
  {
    var n := |es| - 1;
    var name, text := BibFileName(es[j]), EntryToBib(es[j]);
    if j < n {
      var p := es[..n];
      assert p[j] == es[j];
      assert forall k :: j < k < |p| && HasKey(p[k]) ==> BibFileName(p[k]) != name by {
        assert forall k :: 0 <= k < |p| ==> p[k] == es[k];
      }
      EmittedLastWriterWins(m, p, j);
      var prior := Emitted(m, p);
      assert name in prior && prior[name] == text;
      if HasKey(es[n]) {
        assert BibFileName(es[n]) != name;
      }
    }
  }

  lemma WrittenNamesSnoc(es: seq<Entry>)
    requires es != []
    ensures var n := |es| - 1;
      WrittenNames(es) == WrittenNames(es[..n]) + (if HasKey(es[n]) then {BibFileName(es[n])} else {})
  {
    var n := |es| - 1;
    var p := es[..n];
    var before, after := WrittenNames(p), WrittenNames(es);
    var last: set<string> := if HasKey(es[n]) then {BibFileName(es[n])} else {};
    forall y | y in after ensures y in before + last {
      var i :| 0 <= i < |es| && HasKey(es[i]) && y == BibFileName(es[i]);
      if i < n {
        assert p[i] == es[i];
      }
    }
    forall y | y in before + last ensures y in after {
      if y in before {
        var i :| 0 <= i < |p| && HasKey(p[i]) && y == BibFileName(p[i]);
        assert p[i] == es[i];
      }
    }
  }

  /** The directory afterwards holds the files it held before and the files
      the entries were written to, and nothing else. */
  lemma {:induction false} EmittedNames(m: map<string, string>, es: seq<Entry>)
    ensures Emitted(m, es).Keys == m.Keys + WrittenNames(es)
  {
    if es != [] {
      EmittedNames(m, es[..|es| - 1]);
      WrittenNamesSnoc(es);
    }
  }

  lemma {:induction false} WrittenNamesBound(es: seq<Entry>)
    ensures |WrittenNames(es)| <= KeyedCount(es)
  {
    if es != [] {
      WrittenNamesBound(es[..|es| - 1]);
      WrittenNamesSnoc(es);
    }
  }

  /** The loop creates at most `written` new files; fewer when sanitised
      names collide. */
  lemma NewFilesAtMostWritten(m: map<string, string>, es: seq<Entry>)
    ensures |Emitted(m, es).Keys - m.Keys| <= KeyedCount(es)
  {
    EmittedNames(m, es);
    WrittenNamesBound(es);
    assert Emitted(m, es).Keys - m.Keys <= WrittenNames(es);
    SubsetCardinality(Emitted(m, es).Keys - m.Keys, WrittenNames(es));
  }

  lemma {:induction false} SubsetCardinality(a: set<string>, b: set<string>)
    requires a <= b
    ensures |a| <= |b|
    decreases |b|
  {
    if a != {} {
      var x :| x in a;
      SubsetCardinality(a - {x}, b - {x});
    }
  }

  /** Two entries whose keys sanitise to the same name are both counted, and
      only the second survives. */
  lemma CollidingKeysOverwrite(m: map<string, string>, e1: Entry, e2: Entry)
    requires HasKey(e1) && HasKey(e2) && BibFileName(e1) == BibFileName(e2)
    ensures KeyedCount([e1, e2]) == 2
    ensures Emitted(m, [e1, e2]) == m[BibFileName(e2) := EntryToBib(e2)]
  {
    assert [e1, e2][..1] == [e1];
    assert [e1][..0] == [];
    assert KeyedCount([e1]) == 1;
    assert Emitted(m, [e1]) == m[BibFileName(e1) := EntryToBib(e1)];
  }

  /** Such collisions happen: "a:b" and "a/b" both become `a_b.bib`. The keys
      are parameters fixed by the precondition, as in the other examples. */
  lemma CollisionExample(k1: string, k2: string)
    requires k1 == "a:b" && k2 == "a/b"
    ensures SafeFilename(Some(k1)) == SafeFilename(Some(k2)) == "a_b"
  {
    assert NoSpace(k1) && NoSpace(k2);
    TrimUnchanged(k1);
    TrimUnchanged(k2);
    SafeFilenameInPlace(k1);
    SafeFilenameInPlace(k2);
  }

  /** An entry whose key is only whitespace is still written, to a file
      named `.bib`. */
  lemma BlankKeyFileName(e: Entry)
    requires HasKey(e) && AllSpace(e.citationKey.value)
    ensures BibFileName(e) == ".bib"
  {
    SafeFilenameEmptyIff(e.citationKey);
  }

  /** Entries keyed `smith2020` and `doe-2021:x` give `smith2020.bib` and
      `doe-2021_x.bib`, and two files written. The keys are parameters fixed
      by the precondition so that the literals are not unfolded everywhere. */
  lemma EndToEndExample(e1: Entry, e2: Entry, k1: string, k2: string)
    requires k1 == "smith2020" && k2 == "doe-2021:x"
    requires e1.citationKey == Some(k1) && e2.citationKey == Some(k2)
    ensures KeyedCount([e1, e2]) == 2
    ensures Emitted(map[], [e1, e2])
      == map["smith2020.bib" := EntryToBib(e1), "doe-2021_x.bib" := EntryToBib(e2)]
  {
    SafeFilenameExamples(k1, k2);
    assert |k1| == 9 && |k2| == 10;
    assert HasKey(e1) && HasKey(e2);
    assert [e1, e2][..1] == [e1];
    assert [e1][..0] == [];
    assert KeyedCount([e1]) == 1;
    var empty: map<string, string> := map[];
    assert Emitted(empty, []) == empty;
    var m1 := Emitted(empty, [e1]);
    assert m1 == map[BibFileName(e1) := EntryToBib(e1)];
    assert BibFileName(e1) == "smith2020.bib";
    assert BibFileName(e2) == "doe-2021_x.bib";
  }
}
