/** core/template/template.go: the renderer, which appends the fields its templates do not
    name. A form maps each key to its list of values. */
module Renderer {
  import opened Wrappers
  import T = Text
  import opened Sorting
  import opened Template

  type FormData = map<string, seq<string>>

  function Joined(values: seq<string>): string {
    T.Join(values, ", ")
  }

  /** The template's view of a form: keys with values, joined. */
  ghost function Flat(form: FormData): map<string, string> {
    map k | k in form && form[k] != [] :: Joined(form[k])
  }

  predicate Blank(values: seq<string>) {
    T.TrimSpace(Joined(values)) == ""
  }

  /** The fields to pass through: unnamed keys whose joined value is not blank. */
  ghost function Extras(form: FormData, named: set<string>): map<string, string> {
    map k | k in form && k !in named && !Blank(form[k]) :: Joined(form[k])
  }

  method FlattenForm(form: FormData) returns (out: map<string, string>)
    ensures out == Flat(form)
  {
    out := map[];
    var todo := form.Keys;
    while todo != {}
      invariant todo <= form.Keys
      invariant forall k <- form.Keys - todo :: k in out <==> form[k] != []
      invariant forall k <- out.Keys :: k in form.Keys - todo && out[k] == Joined(form[k])
      decreases todo
    {
      var k :| k in todo;
      todo := todo - {k};
      if |form[k]| == 0 {
        continue;
      }
      if |form[k]| == 1 {
        out := out[k := form[k][0]];
      } else {
        out := out[k := T.Join(form[k], ", ")];
      }
    }
  }

  method ExtraFields(form: FormData, named: set<string>) returns (out: map<string, string>)
    ensures out == Extras(form, named)
  {
    hide T.Join, T.TrimSpace;
    out := map[];
    var todo := form.Keys;
    while todo != {}
      invariant todo <= form.Keys
      invariant forall k <- form.Keys - todo :: k in out <==> k !in named && !Blank(form[k])
      invariant forall k <- out.Keys :: k in form.Keys - todo && out[k] == Joined(form[k])
      decreases todo
    {
      var k :| k in todo;
      todo := todo - {k};
      if k in named {
        continue;
      }
      if |form[k]| == 0 {
        NothingIsBlank();
        continue;
      }
      var joined := T.Join(form[k], ", ");
      if T.TrimSpace(joined) == "" {
        continue;
      }
      out := out[k := joined];
    }
  }

  lemma NothingIsBlank()
    ensures Blank([])
  {
  }

  // --- The renderer ------------------------------------------------------------------------

  class Renderer {
    const subject: Node
    const body: Node
    const namedFields: set<string>

    ghost predicate Valid() {
      Fields(subject) + Fields(body) <= namedFields
    }

    /** Named fields: the reserved names that are not empty, and what the templates read. */
    constructor (subject: Node, body: Node, reservedNames: seq<string>)
      ensures Valid() && this.subject == subject && this.body == body
      ensures namedFields == (set n | n in reservedNames && n != "") + Fields(subject) + Fields(body)
    {
      var reserved: set<string> := {};
      for i := 0 to |reservedNames|
        invariant reserved == set n | n in reservedNames[..i] && n != ""
      {
        assert reservedNames[..i + 1] == reservedNames[..i] + [reservedNames[i]];
        if reservedNames[i] != "" {
          reserved := reserved + {reservedNames[i]};
        }
      }
      assert reservedNames[..|reservedNames|] == reservedNames;
      var into := new NameSet();
      into.names := reserved;
      CollectFieldNames(subject, into);
      CollectFieldNames(body, into);
      this.subject, this.body := subject, body;
      namedFields := into.names;
    }

    method RenderSubject(lib: Library, form: FormData) returns (text: Option<string>)
      ensures text == Execute(lib, subject, Flat(form))
    {
      var data := FlattenForm(form);
      text := Execute(lib, subject, data);
    }

    /** The body, then the sorted block of fields the templates do not name. */
    method RenderBody(lib: Library, form: FormData) returns (text: Option<string>)
      ensures var body := Execute(lib, body, Flat(form));
              text == if body.None? then None else Some(WithBlock(body.value, Extras(form, namedFields)))
    {
      hide Walk, WithBlock, Extras, Flat;
      var data := FlattenForm(form);
      var rendered := Execute(lib, body, data);
      if rendered.None? {
        return None;
      }
      var extras := ExtraFields(form, namedFields);
      var out := AppendBlock(rendered.value, extras);
      return Some(out);
    }
  }

  method WriteLines(head: string, keys: seq<string>, extras: map<string, string>) returns (out: string)
    requires forall k <- keys :: k in extras
    ensures out == head + BlockLines(keys, extras)
  {
    out := head;
    for i := 0 to |keys|
      invariant out == head + BlockLines(keys[..i], extras)
    {
      var line := "  " + keys[i] + ": " + extras[keys[i]] + "\n";
      assert keys[..i + 1] == keys[..i] + [keys[i]];
      BlockLinesAppend(keys[..i], keys[i], extras);
      assert out + line == head + (BlockLines(keys[..i], extras) + line);
      out := out + line;
    }
    assert keys[..|keys|] == keys;
  }

  method AppendBlock(text: string, extras: map<string, string>) returns (out: string)
    ensures out == WithBlock(text, extras)
  {
    hide Sort, Sorted, SortedListing, BlockLines;
    if |extras| == 0 {
      return text;
    }
    var keys := Keys(extras);
    SortedListingIs(keys, extras.Keys);
    keys := Sort(keys);
    out := text;
    if !(|out| > 0 && out[|out| - 1] == '\n') {
      out := out + "\n";
    }
    out := out + "\nAdditional fields:\n";
    out := WriteLines(out, keys, extras);
  }

  /** "  key: value", one line a key. */
  function BlockLines(keys: seq<string>, extras: map<string, string>): string
    requires forall k <- keys :: k in extras
  {
    if keys == [] then ""
    else
      var k := keys[|keys| - 1];
      BlockLines(keys[..|keys| - 1], extras) + ("  " + k + ": " + extras[k] + "\n")
  }

  lemma {:induction false} BlockLinesAppend(keys: seq<string>, k: string, extras: map<string, string>)
    requires (forall x <- keys :: x in extras) && k in extras
    ensures BlockLines(keys + [k], extras) == BlockLines(keys, extras) + ("  " + k + ": " + extras[k] + "\n")
  {
    assert (keys + [k])[..|keys|] == keys;
  }

  function EndLine(text: string): string {
    if |text| > 0 && text[|text| - 1] == '\n' then text else text + "\n"
  }

  /** Nothing to pass through leaves the text alone. */
  ghost function WithBlock(text: string, extras: map<string, string>): string {
    SortedListingOk(extras.Keys);
    if extras == map[] then text
    else EndLine(text) + "\nAdditional fields:\n" + BlockLines(SortedListing(extras.Keys), extras)
  }

  // --- No field is lost or shown twice ---------------------------------------------------------

  predicate StrictlySorted(keys: seq<string>) {
    forall i, j :: 0 <= i < j < |keys| ==> LE(keys[i], keys[j]) && keys[i] != keys[j]
  }

  /** The block lists, in strictly increasing order and once each, exactly the form's keys that
      are unnamed and not blank. */
  lemma BlockIsPartition(form: FormData, named: set<string>)
    ensures var keys := SortedListing(Extras(form, named).Keys);
            && StrictlySorted(keys)
            && (forall k <- keys :: k in form && k !in named && !Blank(form[k]))
            && (forall k <- form.Keys ::
                  k in named || Blank(form[k]) || exists i :: 0 <= i < |keys| && keys[i] == k
                                                              && forall j :: 0 <= j < |keys| && keys[j] == k ==> j == i)
  {
    hide Sort, SortedListing, Blank, LE;
    var extras := Extras(form, named);
    var keys := SortedListing(extras.Keys);
    SortedListingOk(extras.Keys);
    forall k | k in form.Keys && k !in named && !Blank(form[k])
      ensures exists i :: 0 <= i < |keys| && keys[i] == k && forall j :: 0 <= j < |keys| && keys[j] == k ==> j == i
    {
      assert k in extras.Keys && k in keys;
      var i :| 0 <= i < |keys| && keys[i] == k;
      assert forall j :: 0 <= j < |keys| && keys[j] == k ==> j == i;
    }
  }

  /** A field the renderer does not name cannot change what either template renders, and, if
      not blank, is shown in the block: nothing submitted goes unseen. */
  lemma UnnamedFieldIsPassedThrough(r: Renderer, lib: Library, form: FormData, key: string, values: seq<string>)
    requires r.Valid() && LibraryOk(lib) && Safe(r.subject, true, r.namedFields) && Safe(r.body, true, r.namedFields)
    requires key !in r.namedFields
    ensures Execute(lib, r.subject, Flat(form[key := values])) == Execute(lib, r.subject, Flat(form))
    ensures Execute(lib, r.body, Flat(form[key := values])) == Execute(lib, r.body, Flat(form))
    ensures key in SortedListing(Extras(form[key := values], r.namedFields).Keys) <==> !Blank(values)
  {
    hide Sort, SortedListing, Blank, Joined, Execute, LibraryOk, Safe, Fields;
    var changed := form[key := values];
    SortedListingOk(Extras(changed, r.namedFields).Keys);
    forall k | k in r.namedFields ensures Lookup(Flat(changed), k) == Lookup(Flat(form), k) {
    }
    NamesAreEnough(lib, r.subject, r.namedFields);
    NamesAreEnough(lib, r.body, r.namedFields);
  }

  /** Two forms that agree on the named fields render the same subject and body text. */
  lemma NamedFieldsDecide(r: Renderer, lib: Library, form: FormData, other: FormData)
    requires r.Valid() && LibraryOk(lib) && Safe(r.subject, true, r.namedFields) && Safe(r.body, true, r.namedFields)
    requires Agree(Flat(form), Flat(other), r.namedFields)
    ensures Execute(lib, r.subject, Flat(form)) == Execute(lib, r.subject, Flat(other))
    ensures Execute(lib, r.body, Flat(form)) == Execute(lib, r.body, Flat(other))
  {
    hide Execute, LibraryOk, Safe, Fields, Lookup, Flat;
    NamesAreEnough(lib, r.subject, r.namedFields);
    NamesAreEnough(lib, r.body, r.namedFields);
  }

  // --- The block read back -----------------------------------------------------------------------

  /** A field the template reads holds its one value, or its values listed with commas. */
  lemma ValuesReadBack(form: FormData, key: string)
    requires key in form && form[key] != []
    ensures key in Flat(form) && (|form[key]| == 1 ==> Flat(form)[key] == form[key][0])
    ensures (forall v <- form[key] :: ',' !in v) ==>
              T.Split(Flat(form)[key], ',') == [form[key][0]] + T.Spaced(form[key][1..])
  {
    hide T.Split, T.Spaced;
    if forall v <- form[key] :: ',' !in v {
      T.SplitCommaList(form[key]);
    }
  }

  type Entry = (string, string)

  /** "  key: value". */
  function ReadField(line: string): Option<Entry> {
    if |line| < 2 || line[..2] != "  " then None
    else
      var i := T.IndexByte(line[2..], ':');
      if i < 0 || i + 1 >= |line[2..]| || line[2..][i + 1] != ' ' then None
      else Some((line[2..][..i], line[2..][i + 2..]))
  }

  function ReadFields(lines: seq<string>): Option<seq<Entry>> {
    if lines == [] then Some([])
    else match (ReadField(lines[0]), ReadFields(lines[1..]))
      case (Some(e), Some(rest)) => Some([e] + rest)
      case _ => None
  }

  /** A blank line, the heading, and one line a field. */
  function ReadBlock(text: string): Option<seq<Entry>> {
    var lines := T.Split(text, '\n');
    if |lines| < 3 || lines[0] != "" || lines[1] != "Additional fields:" || lines[|lines| - 1] != "" then None
    else ReadFields(lines[2..|lines| - 1])
  }

  predicate Readable(key: string, value: string) {
    '\n' !in key && ':' !in key && '\n' !in value
  }

  function FieldLine(e: Entry): string {
    "  " + e.0 + ": " + e.1
  }

  lemma FieldReads(e: Entry)
    requires Readable(e.0, e.1)
    ensures ReadField(FieldLine(e)) == Some(e) && '\n' !in FieldLine(e)
  {
    hide T.IndexByte;
    var line := FieldLine(e);
    var rest := e.0 + [':'] + (" " + e.1);
    assert line == "  " + rest;
    assert line[..2] == "  " && line[2..] == rest;
    T.IndexByteIs(e.0, " " + e.1, ':');
    assert rest[|e.0| + 1] == ' ' && rest[..|e.0|] == e.0 && rest[|e.0| + 2..] == e.1;
    NoNewlineIn(e);
  }

  lemma NoNewlineIn(e: Entry)
    requires Readable(e.0, e.1)
    ensures '\n' !in FieldLine(e)
  {
    assert '\n' !in "  " && '\n' !in ": ";
  }

  function EntriesOf(keys: seq<string>, extras: map<string, string>): seq<Entry>
    requires forall k <- keys :: k in extras
  {
    seq(|keys|, i requires 0 <= i < |keys| => (keys[i], extras[keys[i]]))
  }

  function FieldLines(entries: seq<Entry>): seq<string> {
    seq(|entries|, i requires 0 <= i < |entries| => FieldLine(entries[i]))
  }

  lemma {:induction false} FieldsRead(entries: seq<Entry>)
    requires forall e <- entries :: Readable(e.0, e.1)
    ensures ReadFields(FieldLines(entries)) == Some(entries)
    ensures forall l <- FieldLines(entries) :: '\n' !in l
  {
    hide ReadField, FieldLine, Readable;
    if entries != [] {
      var rest := entries[1..];
      assert entries[0] in entries && entries == [entries[0]] + rest;
      FieldReads(entries[0]);
      FieldsRead(rest);
      assert FieldLines(entries) == [FieldLine(entries[0])] + FieldLines(rest);
    }
  }

  lemma {:induction false} BlockIsLines(keys: seq<string>, extras: map<string, string>)
    requires forall k <- keys :: k in extras
    ensures BlockLines(keys, extras) == T.EndLines(FieldLines(EntriesOf(keys, extras)))
  {
    if keys != [] {
      var front, k := keys[..|keys| - 1], keys[|keys| - 1];
      assert keys == front + [k];
      BlockIsLines(front, extras);
      var lines := FieldLines(EntriesOf(keys, extras));
      assert lines[..|lines| - 1] == FieldLines(EntriesOf(front, extras));
      assert lines[|lines| - 1] == FieldLine((k, extras[k]));
    }
  }

  /** The text so far, with a newline at its end. */
  lemma BlockReadsBack(text: string, extras: map<string, string>)
    requires extras != map[] && forall k <- extras.Keys :: Readable(k, extras[k])
    ensures forall k <- SortedListing(extras.Keys) :: k in extras
    ensures var out, head := WithBlock(text, extras), EndLine(text);
            head <= out && ReadBlock(out[|head|..]) == Some(EntriesOf(SortedListing(extras.Keys), extras))
  {
    hide ReadFields, BlockLines, Sort, Sorted, SortedListing, EndLine, T.Split, T.EndLines, FieldLine, Readable;
    SortedListingOk(extras.Keys);
    var keys := SortedListing(extras.Keys);
    var entries := EntriesOf(keys, extras);
    forall e | e in entries ensures Readable(e.0, e.1) {
      var i :| 0 <= i < |entries| && entries[i] == e;
      assert keys[i] in keys;
    }
    FieldsRead(entries);
    BlockIsLines(keys, extras);
    BlockSplits(FieldLines(entries));
    var block := "\nAdditional fields:\n" + BlockLines(keys, extras);
    assert WithBlock(text, extras) == EndLine(text) + block;
  }

  lemma {:induction false} BlockSplits(lines: seq<string>)
    requires forall l <- lines :: '\n' !in l
    ensures T.Split("\nAdditional fields:\n" + T.EndLines(lines), '\n') == ["", "Additional fields:"] + lines + [""]
  {
    hide T.Split, T.EndLines;
    T.SplitEndLines(lines);
    var heading, rest := "Additional fields:", T.EndLines(lines);
    assert '\n' !in heading;
    T.SplitFirst(heading, rest, '\n');
    T.SplitFirst("", heading + "\n" + rest, '\n');
    assert "" + ['\n'] + (heading + "\n" + rest) == "\nAdditional fields:\n" + rest;
  }

  /** The entries are, in byte order of their keys, exactly the unnamed fields with something in
      them but space. */
  predicate PassesThrough(entries: seq<Entry>, form: FormData, named: set<string>) {
    && (forall i, j :: 0 <= i < j < |entries| ==> LE(entries[i].0, entries[j].0) && entries[i].0 != entries[j].0)
    && (forall e <- entries :: e.0 in form && e.0 !in named && e.1 == T.Join(form[e.0], ", ") && T.TrimSpace(e.1) != "")
    && (forall k <- form.Keys :: k !in named && T.TrimSpace(T.Join(form[k], ", ")) != "" ==>
          (k, T.Join(form[k], ", ")) in entries)
  }

  /** The rendered body is the template's text, kept whole, and the block after it reads back as
      exactly the fields passed through; with none to pass through it is the text alone. */
  lemma RenderedBodyReads(r: Renderer, form: FormData, text: string)
    requires forall k <- form.Keys :: k !in r.namedFields ==> Readable(k, T.Join(form[k], ", "))
    ensures var out := WithBlock(text, Extras(form, r.namedFields));
            var head := if text != "" && text[|text| - 1] == '\n' then text else text + "\n";
            if exists k :: k in form && k !in r.namedFields && T.TrimSpace(T.Join(form[k], ", ")) != "" then
              && text <= head <= out
              && ReadBlock(out[|head|..]).Some? && PassesThrough(ReadBlock(out[|head|..]).value, form, r.namedFields)
            else out == text
  {
    hide ReadBlock, BlockLines, Sort, SortedListing, T.Join, T.TrimSpace, Readable, PassesThrough;
    var extras := Extras(form, r.namedFields);
    if k :| k in form && k !in r.namedFields && T.TrimSpace(T.Join(form[k], ", ")) != "" {
      assert k in extras;
      BlockReadsBack(text, extras);
      ExtrasPass(form, r.namedFields);
    }
  }

  lemma ExtrasPass(form: FormData, named: set<string>)
    ensures var extras := Extras(form, named);
            && (forall k <- SortedListing(extras.Keys) :: k in extras)
            && PassesThrough(EntriesOf(SortedListing(extras.Keys), extras), form, named)
  {
    hide Sort, SortedListing, T.Join, T.TrimSpace, LE;
    var extras := Extras(form, named);
    var keys := SortedListing(extras.Keys);
    SortedListingOk(extras.Keys);
    var entries := EntriesOf(keys, extras);
    forall i | 0 <= i < |entries| ensures entries[i].0 in extras && entries[i].1 == T.Join(form[entries[i].0], ", ") {
      assert keys[i] in keys;
    }
    forall i, j | 0 <= i < j < |entries| ensures LE(entries[i].0, entries[j].0) && entries[i].0 != entries[j].0 {
      assert LE(keys[i], keys[j]) && keys[i] != keys[j];
    }
    forall k | k in form.Keys && k !in named && T.TrimSpace(T.Join(form[k], ", ")) != ""
      ensures (k, T.Join(form[k], ", ")) in entries
    {
      assert k in extras.Keys && k in keys;
      var i :| 0 <= i < |keys| && keys[i] == k;
      assert entries[i] == (k, T.Join(form[k], ", "));
    }
  }
}
