// One request per kind of field for all target languages, and how the replies are put together.
module TranslationBatch {
  import opened Wrappers
  import opened Strings
  import opened TranslationFields

  type Language = string

  /** One item of a reply; a language without a translation is absent from `results`. */
  datatype Item = Item(key: Option<string>, results: map<Language, string>)

  function Find(items: seq<Item>, key: string): Option<Item> {
    if items == [] then None
    else if items[0].key == Some(key) then Some(items[0])
    else Find(items[1..], key)
  }

  /** The trimmed translation of a field, "" when there is none. */
  function Answered(items: seq<Item>, key: string, language: Language): string {
    var item := Find(items, key);
    if item.Some? && language in item.value.results then Trim(item.value.results[language]) else ""
  }

  function Text(items: seq<Item>, f: Field, language: Language): string {
    var t := Answered(items, f.fieldKey, language);
    if t != "" then t else f.content
  }

  /** The reply has as many items as fields were sent, one of them for every field, and, when a
      translation is required, a non-blank text for every language. */
  predicate Complete(items: seq<Item>, fields: seq<Field>, languages: seq<Language>, required: bool) {
    && |items| == |fields|
    && forall f :: f in fields ==> Find(items, f.fieldKey).Some? && (required ==> forall l ::
         l in languages ==> Answered(items, f.fieldKey, l) != "")
  }

  /** A request was not needed, or its reply came back complete. */
  predicate Arrived(reply: Option<seq<Item>>, fields: seq<Field>, languages: seq<Language>, required: bool) {
    fields == [] || (reply.Some? && Complete(reply.value, fields, languages, required))
  }

  ghost predicate FirstItem(items: seq<Item>, key: string, i: nat) {
    i < |items| && items[i].key == Some(key) && forall j :: 0 <= j < i ==> items[j].key != Some(key)
  }

  /** The item has a text in the language that is not blank. */
  ghost predicate Speaks(item: Item, l: Language) {
    l in item.results && Trim(item.results[l]) != ""
  }

  /** The first item with a key is found, and it is found exactly if there is one. */
  lemma {:induction false} FindIsFirst(items: seq<Item>, key: string) returns (i: nat)
    ensures Find(items, key).Some? ==> FirstItem(items, key, i) && Find(items, key) == Some(items[i])
    ensures Find(items, key).None? ==> forall j :: 0 <= j < |items| ==> items[j].key != Some(key)
  {
    i := 0;
    if items != [] && items[0].key != Some(key) {
      var k := FindIsFirst(items[1..], key);
      i := k + 1;
    }
  }

  /** A field becomes the trimmed translation of the first item with its key, or keeps its content
      where that item has none. */
  lemma TextMeans(items: seq<Item>, f: Field, l: Language)
    ensures forall i: nat ::
      FirstItem(items, f.fieldKey, i) && Speaks(items[i], l) ==> Text(items, f, l) == Trim(items[i].results[l])
    ensures (forall i: nat :: FirstItem(items, f.fieldKey, i) ==> !Speaks(items[i], l))
      ==> Text(items, f, l) == f.content
  {
    var k := FindIsFirst(items, f.fieldKey);
  }

  ghost predicate AnswersFully(items: seq<Item>, key: string, languages: seq<Language>, required: bool) {
    exists i: nat :: FirstItem(items, key, i) && (required ==> forall l :: l in languages ==> Speaks(items[i], l))
  }

  /** A request succeeds if nothing was to be asked, or if a reply came with one item for each
      field, for every field the first item of its key, and, where that is required, a text of that
      item in every language. */
  lemma ArrivedIff(reply: Option<seq<Item>>, fields: seq<Field>, languages: seq<Language>, required: bool)
    ensures Arrived(reply, fields, languages, required)
      <==> fields == [] || (reply.Some? && |reply.value| == |fields| && forall f ::
            f in fields ==> AnswersFully(reply.value, f.fieldKey, languages, required))
  {
    if reply.Some? {
      forall f: Field ensures AnswersFully(reply.value, f.fieldKey, languages, required)
          <==> Find(reply.value, f.fieldKey).Some? && (required ==> forall l ::
                 l in languages ==> Answered(reply.value, f.fieldKey, l) != "") {
        var i := FindIsFirst(reply.value, f.fieldKey);
      }
    }
  }

  /** The texts of one field in every language. */
  ghost predicate AnswersField(texts: map<string, map<Language, string>>, f: Field, languages: seq<Language>,
          items: seq<Item>) {
    f.fieldKey in texts && forall l ::
        l in languages ==> l in texts[f.fieldKey] && texts[f.fieldKey][l] == Text(items, f, l)
  }

  /** translateTextFieldsToLanguages and translateHtmlFieldsToLanguages; `reply` is None when the
      request failed. */
  method TranslateBatch(fields: seq<Field>, languages: seq<Language>, reply: Option<seq<Item>>, required: bool)
    returns (r: Option<map<string, map<Language, string>>>)
    requires NormalForm(fields)
    ensures r.Some? <==> Arrived(reply, fields, languages, required)
    ensures r.Some? ==> forall f :: f in fields ==> AnswersField(r.value, f, languages, reply.GetOr([]))
  {
    if fields == [] {
      return Some(map[]);
    }
    if reply.None? || |reply.value| != |fields| {
      return None;
    }
    var items := reply.value;
    var translatedByField: map<string, map<Language, string>> := map[];
    for i := 0 to |fields|
      invariant forall f :: f in fields[..i] ==> Find(items, f.fieldKey).Some? && (required ==> forall l ::
        l in languages ==> Answered(items, f.fieldKey, l) != "")
      invariant forall f :: f in fields[..i] ==> AnswersField(translatedByField, f, languages, items)
    {
      var field := fields[i];
      var item := Find(items, field.fieldKey);
      if item.None? {
        return None;
      }
      if required && exists l :: l in languages && Answered(items, field.fieldKey, l) == "" {
        return None;
      }
      var translated := map l | l in languages :: Text(items, field, l);
      translatedByField := translatedByField[field.fieldKey := translated];
      forall f | f in fields[..i] ensures f.fieldKey != field.fieldKey {
        var j :| 0 <= j < i && fields[j] == f;
      }
      assert fields[..i + 1] == fields[..i] + [field];
    }
    assert fields[..|fields|] == fields;
    r := Some(translatedByField);
  }
}
