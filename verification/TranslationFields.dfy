// The fields of a translation job: normalised when they are queued and again when they are
// read back from the job row. A later field with the same key replaces the earlier one at its
// place, so a list of fields behaves like a map in insertion order.
module TranslationFields {
  import opened Wrappers
  import opened Strings

  datatype Field = Field(fieldKey: string, content: string, isHtml: bool)

  function Keys(fields: seq<Field>): set<string> {
    set f | f in fields :: f.fieldKey
  }

  predicate Kept(f: Field) {
    Trim(f.fieldKey) != "" && Trim(f.content) != ""
  }

  function Cleaned(f: Field): Field {
    Field(Trim(f.fieldKey), Trim(f.content), f.isHtml)
  }

  /** Map.prototype.set on a map listed in insertion order: an existing key keeps its place. */
  function Put(s: seq<Field>, f: Field): (r: seq<Field>)
    ensures |s| <= |r| <= |s| + 1
  {
    if s == [] then [f]
    else if s[0].fieldKey == f.fieldKey then [f] + s[1..]
    else [s[0]] + Put(s[1..], f)
  }

  function Normalized(fields: seq<Field>): seq<Field> {
    if fields == [] then []
    else
      var before := Normalized(fields[..|fields| - 1]);
      var f := fields[|fields| - 1];
      if Kept(f) then Put(before, Cleaned(f)) else before
  }

  /** normalizeFields */
  method NormalizeFields(fields: seq<Field>) returns (normalized: seq<Field>)
    ensures normalized == Normalized(fields)
  {
    normalized := [];
    for i := 0 to |fields|
      invariant normalized == Normalized(fields[..i])
    {
      var field := fields[i];
      var fieldKey, content := Trim(field.fieldKey), Trim(field.content);
      assert fields[..i + 1][..i] == fields[..i];
      if fieldKey == "" || content == "" {
        continue;
      }
      normalized := Put(normalized, Field(fieldKey, content, field.isHtml));
    }
    assert fields[..|fields|] == fields;
  }

  /** Distinct non-blank keys with non-blank contents, all trimmed. */
  ghost predicate NormalForm(fields: seq<Field>) {
    && (forall i, j :: 0 <= i < j < |fields| ==> fields[i].fieldKey != fields[j].fieldKey)
    && forall f :: f in fields ==> Kept(f) && Cleaned(f) == f
  }

  lemma {:induction false} PutMembers(s: seq<Field>, f: Field)
    requires forall i, j :: 0 <= i < j < |s| ==> s[i].fieldKey != s[j].fieldKey
    ensures forall g :: g in Put(s, f) <==> g == f || (g in s && g.fieldKey != f.fieldKey)
    ensures forall i, j :: 0 <= i < j < |Put(s, f)| ==> Put(s, f)[i].fieldKey != Put(s, f)[j].fieldKey
  {
    if s != [] {
      if s[0].fieldKey == f.fieldKey {
        assert s == [s[0]] + s[1..];
      } else {
        PutMembers(s[1..], f);
        assert s == [s[0]] + s[1..];
        var r := Put(s, f);
        forall i, j | 0 <= i < j < |r| ensures r[i].fieldKey != r[j].fieldKey {
          assert r[j] in Put(s[1..], f);
          if i > 0 { assert r[i] == Put(s[1..], f)[i - 1]; }
        }
      }
    }
  }

  lemma {:induction false} PutAbsent(s: seq<Field>, f: Field)
    requires f.fieldKey !in Keys(s)
    ensures Put(s, f) == s + [f]
  {
    if s != [] {
      assert s[0] in s;
      assert Keys(s[1..]) <= Keys(s);
      PutAbsent(s[1..], f);
    }
  }

  /** `f` is field `i` trimmed, neither its key nor its content is blank, and every later field with
      its key is blank. */
  ghost predicate LastOfKey(fields: seq<Field>, i: nat, f: Field) {
    && i < |fields| && f.fieldKey != "" && f.content != ""
    && f == Field(Trim(fields[i].fieldKey), Trim(fields[i].content), fields[i].isHtml)
    && forall j :: i < j < |fields| && Trim(fields[j].fieldKey) == f.fieldKey ==> Trim(fields[j].content) == ""
  }

  ghost predicate IsLast(fields: seq<Field>, f: Field) {
    exists i: nat :: LastOfKey(fields, i, f)
  }

  lemma LastOfLongerList(before: seq<Field>, last: Field, i: nat, f: Field)
    requires i < |before| && !(Kept(last) && Cleaned(last).fieldKey == f.fieldKey)
    ensures LastOfKey(before + [last], i, f) <==> LastOfKey(before, i, f)
  {
    var fields := before + [last];
    assert fields[i] == before[i];
    if LastOfKey(fields, i, f) {
      forall j | i < j < |before| && Trim(before[j].fieldKey) == f.fieldKey ensures Trim(before[j].content) == "" {
        assert fields[j] == before[j];
      }
    }
  }

  /** One more field takes over its key and leaves the other keys as they were. */
  lemma OneMoreField(before: seq<Field>, last: Field, f: Field)
    ensures IsLast(before + [last], f)
       <==> if Kept(last) && Cleaned(last).fieldKey == f.fieldKey then f == Cleaned(last) else IsLast(before, f)
  {
    var fields := before + [last];
    assert fields[|before|] == last;
    if Kept(last) && Cleaned(last).fieldKey == f.fieldKey {
      if f == Cleaned(last) { assert LastOfKey(fields, |before|, f); }
      if i: nat :| LastOfKey(fields, i, f) { assert i == |before|; }
    } else {
      if i: nat :| LastOfKey(before, i, f) { LastOfLongerList(before, last, i, f); }
      if i: nat :| LastOfKey(fields, i, f) { LastOfLongerList(before, last, i, f); }
    }
  }

  lemma {:induction false} NormalizedIsNormalForm(fields: seq<Field>)
    ensures NormalForm(Normalized(fields))
  {
    if fields != [] {
      var n := |fields| - 1;
      NormalizedIsNormalForm(fields[..n]);
      PutMembers(Normalized(fields[..n]), Cleaned(fields[n]));
    }
  }

  /** The result is in normal form and holds, for each key, the last field given for it. */
  lemma {:induction false} LastWins(fields: seq<Field>)
    ensures NormalForm(Normalized(fields))
    ensures forall f :: f in Normalized(fields) <==> IsLast(fields, f)
  {
    NormalizedIsNormalForm(fields);
    if fields != [] {
      var n := |fields| - 1;
      LastWins(fields[..n]);
      PutMembers(Normalized(fields[..n]), Cleaned(fields[n]));
      assert fields == fields[..n] + [fields[n]];
      forall f ensures f in Normalized(fields) <==> IsLast(fields, f) {
        OneMoreField(fields[..n], fields[n], f);
      }
    }
  }

  lemma LastIsApart(fields: seq<Field>)
    requires NormalForm(fields) && fields != []
    ensures var n := |fields| - 1;
      && fields == fields[..n] + [fields[n]] && NormalForm(fields[..n])
      && Kept(fields[n]) && Cleaned(fields[n]) == fields[n] && fields[n].fieldKey !in Keys(fields[..n])
  {
    assert fields[|fields| - 1] in fields;
  }

  /** A list in normal form is left alone, order included. */
  lemma {:induction false} NormalFormIsFixed(fields: seq<Field>)
    requires NormalForm(fields)
    ensures Normalized(fields) == fields
  {
    if fields != [] {
      var n := |fields| - 1;
      LastIsApart(fields);
      NormalFormIsFixed(fields[..n]);
      PutAbsent(fields[..n], fields[n]);
    }
  }

  /** The keys of a list, in order. */
  function KeyList(fields: seq<Field>): seq<string> {
    if fields == [] then [] else [fields[0].fieldKey] + KeyList(fields[1..])
  }

  /** The trimmed keys of the fields with neither a blank key nor a blank content, in order. */
  function GivenKeys(fields: seq<Field>): seq<string> {
    if fields == [] then []
    else
      var f := fields[|fields| - 1];
      GivenKeys(fields[..|fields| - 1])
      + if Trim(f.fieldKey) != "" && Trim(f.content) != "" then [Trim(f.fieldKey)] else []
  }

  lemma {:induction false} PutKeys(s: seq<Field>, f: Field)
    ensures KeyList(Put(s, f)) == if f.fieldKey in KeyList(s) then KeyList(s) else KeyList(s) + [f.fieldKey]
  {
    if s != [] {
      var rest := KeyList(s[1..]);
      if s[0].fieldKey == f.fieldKey {
        assert ([f] + s[1..])[1..] == s[1..];
      } else {
        PutKeys(s[1..], f);
        assert ([s[0]] + Put(s[1..], f))[1..] == Put(s[1..], f);
        assert [s[0].fieldKey] + rest + [f.fieldKey] == [s[0].fieldKey] + (rest + [f.fieldKey]);
      }
    }
  }

  /** A later field takes the place of the first one with its key. */
  lemma {:induction false} KeysStayInPlace(fields: seq<Field>)
    ensures KeyList(Normalized(fields)) == Unique(GivenKeys(fields))
  {
    if fields != [] {
      var n := |fields| - 1;
      KeysStayInPlace(fields[..n]);
      PutKeys(Normalized(fields[..n]), Cleaned(fields[n]));
      UniqueAppend(GivenKeys(fields[..n]), Trim(fields[n].fieldKey));
      assert GivenKeys(fields[..n]) + [] == GivenKeys(fields[..n]);
    }
  }

  // ----- the job row -----

  /** One entry of the JSON column; None where the property is not a string. */
  datatype Entry = NotAnObject | Entry(fieldKey: Option<string>, content: Option<string>, isHtml: bool)

  function Encoded(fields: seq<Field>): seq<Entry> {
    seq(|fields|, i requires 0 <= i < |fields| => Entry(Some(fields[i].fieldKey), Some(fields[i].content),
        fields[i].isHtml))
  }

  /** The entries that parseQueuedFields pushes, trimmed. */
  function Read(raw: seq<Entry>): seq<Field> {
    if raw == [] then []
    else
      var before := Read(raw[..|raw| - 1]);
      var e := raw[|raw| - 1];
      if e.NotAnObject? then before
      else
        var f := Field(e.fieldKey.GetOr(""), e.content.GetOr(""), e.isHtml);
        if Kept(f) then before + [Cleaned(f)] else before
  }

  /** The entry is an object with two strings, neither of them blank, that trim to the field. */
  ghost predicate ReadAs(e: Entry, f: Field) {
    && e.Entry? && e.fieldKey.Some? && e.content.Some? && f.fieldKey != "" && f.content != ""
    && f == Field(Trim(e.fieldKey.value), Trim(e.content.value), e.isHtml)
  }

  /** Exactly the fields of such entries are read. */
  lemma {:induction false} ReadIff(raw: seq<Entry>, f: Field)
    ensures f in Read(raw) <==> exists e :: e in raw && ReadAs(e, f)
  {
    if raw != [] {
      var n := |raw| - 1;
      ReadIff(raw[..n], f);
      assert raw == raw[..n] + [raw[n]] && Trim("") == "";
      assert f in Read(raw) <==> f in Read(raw[..n]) || ReadAs(raw[n], f);
    }
  }

  /** parseQueuedFields; None is a column that does not hold an array. */
  method ParseQueuedFields(raw: Option<seq<Entry>>) returns (fields: seq<Field>)
    ensures fields == if raw.None? then [] else Normalized(Read(raw.value))
    ensures NormalForm(fields)
  {
    if raw.None? {
      return [];
    }
    var parsed: seq<Field> := [];
    for i := 0 to |raw.value|
      invariant parsed == Read(raw.value[..i])
    {
      var entry := raw.value[i];
      assert raw.value[..i + 1][..i] == raw.value[..i];
      if entry.NotAnObject? {
        continue;
      }
      var fieldKey, content := entry.fieldKey.GetOr(""), entry.content.GetOr("");
      if Trim(fieldKey) == "" || Trim(content) == "" {
        continue;
      }
      parsed := parsed + [Field(Trim(fieldKey), Trim(content), entry.isHtml)];
    }
    assert raw.value[..|raw.value|] == raw.value;
    fields := NormalizeFields(parsed);
    LastWins(parsed);
  }

  lemma {:induction false} ReadEncoded(fields: seq<Field>)
    requires NormalForm(fields)
    ensures Read(Encoded(fields)) == fields
  {
    if fields != [] {
      var n := |fields| - 1;
      assert Encoded(fields)[..n] == Encoded(fields[..n]);
      ReadEncoded(fields[..n]);
      assert fields[n] in fields;
      assert fields == fields[..n] + [fields[n]];
    }
  }

  /** What a worker parses from a job is what was queued. */
  lemma QueuedFieldsComeBack(fields: seq<Field>)
    ensures Normalized(Read(Encoded(Normalized(fields)))) == Normalized(fields)
  {
    LastWins(fields);
    ReadEncoded(Normalized(fields));
    NormalFormIsFixed(Normalized(fields));
  }
}
