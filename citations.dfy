/** The two pure helpers of the citation generator: the file-name sanitiser
    and the single-entry BibTeX serialiser. */
module Citations {
  import opened Options
  import opened Text

  // ---------------------------------------------------------------------
  // File names

  /** The characters a sanitised file name may contain: `[A-Za-z0-9._-]`. */
  predicate SafeChar(c: char)
  {
    ('a' <= c <= 'z') || ('A' <= c <= 'Z') || ('0' <= c <= '9') || c == '.' || c == '_' || c == '-'
  }

  predicate AllSafe(s: string)
  {
    forall i :: 0 <= i < |s| ==> SafeChar(s[i])
  }

  /** `s.replace(/[^a-zA-Z0-9._-]/g, "_")`: one underscore per unsafe character. */
  function ReplaceUnsafe(s: string): (r: string)
    ensures |r| == |s|
  {
    seq(|s|, i requires 0 <= i < |s| => if SafeChar(s[i]) then s[i] else '_')
  }

  const DefaultName: string := "ref"

  /** `safeFilename`: default an absent or empty key to "ref", trim it, turn
      each whitespace run into one underscore, then every character outside
      `[A-Za-z0-9._-]` into an underscore. */
  function SafeFilename(key: Option<string>): (r: string)
    ensures AllSafe(r)
  {
    ReplaceUnsafe(Collapse(Trim(OrElse(key, DefaultName)), '_'))
  }

  /** A non-empty key made only of safe characters comes back unchanged. */
  lemma SafeFilenameFixedPoint(k: string)
    requires k != [] && AllSafe(k)
    ensures SafeFilename(Some(k)) == k
  {
    SafeIsNoSpace(k);
    TrimUnchanged(k);
    CollapseUnchanged(k, '_');
    var r := ReplaceUnsafe(k);
    assert r == k;
  }

  lemma SafeIsNoSpace(s: string)
    requires AllSafe(s)
    ensures NoSpace(s) && SingleSpaced(s, '_')
  {
    forall i | 0 <= i < |s| ensures !IsSpace(s[i]) {
      assert SafeChar(s[i]);
    }
  }

  /** An absent, null or empty key is named "ref". */
  lemma SafeFilenameDefault(key: Option<string>)
    requires key.None? || key.value == ""
    ensures SafeFilename(key) == "ref"
  {
    SafeFilenameFixedPoint("ref");
  }

  /** The sanitised name is empty exactly when the key is present, non-empty
      and made only of whitespace. */
  lemma SafeFilenameEmptyIff(key: Option<string>)
    ensures SafeFilename(key) == "" <==> key.Some? && key.value != "" && AllSpace(key.value)
  {
    var k := OrElse(key, "ref");
    TrimEmptyIff(k);
    assert !AllSpace("ref") by { assert !IsSpace("ref"[0]); }
  }

  /** Sanitising a sanitised name changes nothing, as long as that name is
      not empty. */
  lemma SafeFilenameIdempotent(key: Option<string>)
    requires SafeFilename(key) != ""
    ensures SafeFilename(Some(SafeFilename(key))) == SafeFilename(key)
  {
    SafeFilenameFixedPoint(SafeFilename(key));
  }

  /** The empty name is the exception: a whitespace-only key sanitises to "",
      which sanitises to "ref". */
  lemma SafeFilenameBlankKeyNotIdempotent()
    ensures SafeFilename(Some(" ")) == ""
    ensures SafeFilename(Some(SafeFilename(Some(" ")))) == "ref"
  {
    SafeFilenameEmptyIff(Some(" "));
    SafeFilenameDefault(Some(""));
  }

  /** When the trimmed key has no inner whitespace, each character keeps its
      position: safe ones stay, unsafe ones become underscores. */
  lemma SafeFilenameInPlace(k: string)
    requires k != [] && NoSpace(Trim(k))
    ensures var t, r := Trim(k), SafeFilename(Some(k));
      |r| == |t| && forall i :: 0 <= i < |t| ==> r[i] == if SafeChar(t[i]) then t[i] else '_'
  {
    CollapseUnchanged(Trim(k), '_');
  }

  /** A present, non-empty key is named after its words joined by
      underscores, with every unsafe character then replaced. */
  lemma SafeFilenameJoinsWords(k: string)
    requires k != []
    ensures SafeFilename(Some(k)) == ReplaceUnsafe(Join(Words(k), "_"))
  {
    var t := Trim(k);
    var _ := TrimIsSlice(k);
    CollapseTrimmedIsJoin(t, '_');
    WordsTrim(k);
  }

  /** The name is exactly as long as the trimmed key once every whitespace run
      is counted as one character, and never longer than the key. */
  lemma SafeFilenameLength(k: string)
    requires k != []
    ensures var t := Trim(k);
      |SafeFilename(Some(k))| == |t| - SpaceCount(t) + RunEnds(t) <= |k|
  {
    CollapseLength(Trim(k), '_');
  }

  /** Two sample keys: one already safe, one with its colon replaced. (Like
      the other examples, the keys are parameters fixed by the precondition,
      which keeps the literals from being unfolded everywhere in the proof.) */
  lemma SafeFilenameExamples(smith: string, doe: string)
    requires smith == "smith2020" && doe == "doe-2021:x"
    ensures SafeFilename(Some(smith)) == "smith2020"
    ensures SafeFilename(Some(doe)) == "doe-2021_x"
  {
    assert AllSafe(smith);
    SafeFilenameFixedPoint(smith);
    SafeFilenameColon(doe);
  }

  /** A key with one unsafe, non-whitespace character has just that
      character replaced. */
  lemma SafeFilenameReplacesOne(k: string, j: nat)
    requires j < |k| && !SafeChar(k[j]) && !IsSpace(k[j])
    requires AllSafe(k[..j]) && AllSafe(k[j + 1..])
    ensures SafeFilename(Some(k)) == k[..j] + "_" + k[j + 1..]
  {
    SafeIsNoSpace(k[..j]);
    SafeIsNoSpace(k[j + 1..]);
    assert k == k[..j] + [k[j]] + k[j + 1..];
    assert NoSpace(k);
    TrimUnchanged(k);
    SafeFilenameInPlace(k);
    var r, e := SafeFilename(Some(k)), k[..j] + "_" + k[j + 1..];
    forall i | 0 <= i < |k| ensures r[i] == e[i] {
      if i < j {
        assert SafeChar(k[..j][i]);
      } else if i > j {
        assert SafeChar(k[j + 1..][i - j - 1]);
      }
    }
  }

  lemma SafeFilenameColon(k: string)
    requires k == "doe-2021:x"
    ensures SafeFilename(Some(k)) == "doe-2021_x"
  {
    assert k[..8] == "doe-2021" && k[9..] == "x";
    SafeFilenameReplacesOne(k, 8);
  }

  // ---------------------------------------------------------------------
  // BibTeX serialisation

  /** One field of `entryTags`; an `undefined` or `null` value is None. */
  datatype Tag = Tag(name: string, value: Option<string>)

  /** A parsed entry; the tags are listed in the order `Object.entries` yields them. */
  datatype Entry = Entry(entryType: Option<string>, citationKey: Option<string>, entryTags: Option<seq<Tag>>)

  function BibType(e: Entry): string
  {
    ToLowerAscii(OrElse(e.entryType, "article"))
  }

  function BibKey(e: Entry): string
  {
    OrElse(e.citationKey, "ref")
  }

  function Tags(e: Entry): seq<Tag>
  {
    if e.entryTags.Some? then e.entryTags.value else []
  }

  /** The filter of `entryToBib`: a value that is present and not blank. */
  predicate IsFilled(t: Tag)
  {
    t.value.Some? && Trim(t.value.value) != ""
  }

  /** The tags that pass the filter, in input order. */
  function Filled(tags: seq<Tag>): (r: seq<Tag>)
    ensures |r| <= |tags|
  {
    if tags == [] then []
    else (if IsFilled(tags[0]) then [tags[0]] else []) + Filled(tags[1..])
  }

  /** `String(v).replace(/\s+/g, " ").trim()`. */
  function NormalizeValue(v: string): string
  {
    Trim(Collapse(v, ' '))
  }

  /** `String(v)` of a present value; absent values never reach a line. */
  function ValueText(t: Tag): string
  {
    if t.value.Some? then t.value.value else ""
  }

  function FieldLine(t: Tag): string
  {
    "  " + t.name + " = {" + NormalizeValue(ValueText(t)) + "}"
  }

  /** The `lines` array of `entryToBib`. */
  function FieldLines(tags: seq<Tag>): seq<string>
  {
    Render(Filled(tags))
  }

  /** The `map` of `entryToBib`: one line per tag. */
  function Render(f: seq<Tag>): (r: seq<string>)
    ensures |r| == |f|
  {
    if f == [] then [] else [FieldLine(f[0])] + Render(f[1..])
  }

  function BibHeader(e: Entry): string
  {
    "@" + BibType(e) + "{" + BibKey(e) + ",\n"
  }

  /** `entryToBib`. */
  function EntryToBib(e: Entry): (r: string)
    ensures |BibHeader(e)| + 3 <= |r|
    ensures r[..|BibHeader(e)|] == BibHeader(e)
    ensures r[|r| - 3..] == "\n}\n"
  {
    BibHeader(e) + Join(FieldLines(Tags(e)), ",\n") + "\n}\n"
  }

  /** The entry type and key fall back to "article" and "ref"; the type is
      lower-cased and the key is kept as given. */
  lemma BibHeaderDefaults(e: Entry)
    ensures (e.entryType.None? || e.entryType.value == "") ==> BibType(e) == "article"
    ensures e.entryType.Some? && e.entryType.value != "" ==> BibType(e) == ToLowerAscii(e.entryType.value)
    ensures e.citationKey.Some? && e.citationKey.value != "" ==> BibKey(e) == e.citationKey.value
    ensures (e.citationKey.None? || e.citationKey.value == "") ==> BibKey(e) == "ref"
    ensures forall i :: 0 <= i < |BibType(e)| ==> !('A' <= BibType(e)[i] <= 'Z')
  {
    if e.entryType.None? || e.entryType.value == "" {
      assert ToLowerAscii("article") == "article";
    }
  }

  lemma {:induction false} FilledAppend(a: seq<Tag>, b: seq<Tag>)
    ensures Filled(a + b) == Filled(a) + Filled(b)
  {
    if a == [] {
      assert a + b == b;
    } else {
      var head := if IsFilled(a[0]) then [a[0]] else [];
      assert (a + b)[0] == a[0];
      assert (a + b)[1..] == a[1..] + b;
      FilledAppend(a[1..], b);
      assert Filled(a + b) == head + Filled(a[1..] + b);
      assert Filled(a) == head + Filled(a[1..]);
    }
  }

  /** A tag reaches the output exactly when it is present in the input and filled. */
  lemma {:induction false} FilledMembers(tags: seq<Tag>, t: Tag)
    ensures t in Filled(tags) <==> t in tags && IsFilled(t)
  {
    if tags != [] {
      FilledMembers(tags[1..], t);
      assert tags == [tags[0]] + tags[1..];
    }
  }

  /** The field lines are one line per filled tag, in input order: the lines
      of a concatenation are the concatenation of the lines, and a single
      tag gives its line when filled and nothing otherwise. */
  lemma FieldLinesAppend(a: seq<Tag>, b: seq<Tag>)
    ensures FieldLines(a + b) == FieldLines(a) + FieldLines(b)
  {
    FilledAppend(a, b);
    RenderAppend(Filled(a), Filled(b));
  }

  lemma {:induction false} RenderAppend(a: seq<Tag>, b: seq<Tag>)
    ensures Render(a + b) == Render(a) + Render(b)
  {
    if a == [] {
      assert a + b == b;
    } else {
      assert (a + b)[0] == a[0];
      assert (a + b)[1..] == a[1..] + b;
      RenderAppend(a[1..], b);
    }
  }

  /** The i-th field line is the line of the i-th filled tag. */
  lemma {:induction false} FieldLinesAt(tags: seq<Tag>, i: nat)
    requires i < |Filled(tags)|
    ensures |FieldLines(tags)| == |Filled(tags)|
    ensures FieldLines(tags)[i] == FieldLine(Filled(tags)[i])
  {
    RenderAt(Filled(tags), i);
  }

  lemma {:induction false} RenderAt(f: seq<Tag>, i: nat)
    requires i < |f|
    ensures Render(f)[i] == FieldLine(f[i])
  {
    if i > 0 {
      RenderAt(f[1..], i - 1);
    }
  }

  lemma FieldLinesSingle(t: Tag)
    ensures FieldLines([t]) == if IsFilled(t) then [FieldLine(t)] else []
  {
    assert [t][1..] == [];
  }

  /** Removing a tag with an absent or blank value leaves the field lines,
      and so the serialisation, unchanged. */
  lemma FieldLinesSkipBlank(a: seq<Tag>, t: Tag, b: seq<Tag>)
    requires !IsFilled(t)
    ensures FieldLines(a + [t] + b) == FieldLines(a + b)
  {
    FieldLinesAppend(a + [t], b);
    FieldLinesAppend(a, [t]);
    FieldLinesSingle(t);
    FieldLinesAppend(a, b);
  }

  lemma EntryToBibSkipsBlank(ty: Option<string>, key: Option<string>, a: seq<Tag>, t: Tag, b: seq<Tag>)
    requires !IsFilled(t)
    ensures EntryToBib(Entry(ty, key, Some(a + [t] + b))) == EntryToBib(Entry(ty, key, Some(a + b)))
  {
    FieldLinesSkipBlank(a, t, b);
  }

  /** An emitted value has no whitespace at either end, no whitespace but
      single spaces, hence no line break; it keeps the non-whitespace
      characters of the input value in order; and it is empty exactly when
      the input value is blank. */
  lemma NormalizeValueShape(v: string)
    ensures var r := NormalizeValue(v);
      && (r == [] || (r[0] != ' ' && r[|r| - 1] != ' '))
      && SingleSpaced(r, ' ')
      && '\n' !in r
      && NonSpaces(r) == NonSpaces(v)
      && (r == [] <==> Trim(v) == [])
  {
    NormalizeValueSpacing(v);
    NormalizeValueNonSpaces(v);
  }

  lemma NormalizeValueSpacing(v: string)
    ensures var r := NormalizeValue(v);
      && (r == [] || (!IsSpace(r[0]) && !IsSpace(r[|r| - 1])))
      && SingleSpaced(r, ' ')
      && '\n' !in r
  {
    var c := Collapse(v, ' ');
    var r := Trim(c);
    CollapseSingleSpaced(v, ' ');
    var i := TrimIsSlice(c);
    SingleSpacedSlice(c, ' ', i, i + |r|);
    forall j | 0 <= j < |r| ensures r[j] != '\n' {
      assert IsSpace(r[j]) ==> r[j] == ' ';
    }
  }

  lemma NormalizeValueNonSpaces(v: string)
    ensures var r := NormalizeValue(v);
      && NonSpaces(r) == NonSpaces(v)
      && (r == [] <==> Trim(v) == [])
  {
    var c := Collapse(v, ' ');
    CollapseKeepsNonSpaces(v, ' ');
    TrimKeepsNonSpaces(c);
    TrimEmptyIff(c);
    TrimEmptyIff(v);
    NonSpacesEmptyIff(c);
    NonSpacesEmptyIff(v);
  }

  /** An emitted value is the words of the input value joined by single
      spaces. */
  lemma NormalizeValueJoinsWords(v: string)
    ensures NormalizeValue(v) == Join(Words(v), " ")
  {
    var c := Collapse(v, ' ');
    NormalizeValueSpacing(v);
    SpacedIsJoinOfWords(NormalizeValue(v), ' ');
    WordsTrim(c);
    WordsCollapse(v, ' ');
  }

  /** Normalising an emitted value again changes nothing. */
  lemma NormalizeValueIdempotent(v: string)
    ensures NormalizeValue(NormalizeValue(v)) == NormalizeValue(v)
  {
    var r := NormalizeValue(v);
    NormalizeValueShape(v);
    CollapseUnchanged(r, ' ');
    TrimUnchanged(r);
  }

  /** The line-oriented reading of the serialisation: a header line, one line
      per filled field with a comma after every field but the last (a single
      empty line when there is no field), and a closing brace. */
  function BibLines(e: Entry): (ls: seq<string>)
    ensures |ls| >= 3 && ls[|ls| - 1] == "}"
  {
    var fields := FieldLines(Tags(e));
    ["@" + BibType(e) + "{" + BibKey(e) + ","]
      + (if fields == [] then [""] else SuffixAllButLast(fields, ","))
      + ["}"]
  }

  lemma EntryToBibLines(e: Entry)
    ensures EntryToBib(e) == Unlines(BibLines(e))
  {
    var head := "@" + BibType(e) + "{" + BibKey(e);
    assert BibHeader(e) == head + ",\n";
    assert BibLines(e)[0] == head + ",";
    LayoutIsLines(head, FieldLines(Tags(e)));
  }
}
