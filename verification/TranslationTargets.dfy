// All fields of a job for all target languages: plain fields, HTML fields, and the Text fields
// that are derived from translated HTML instead of being translated.
module TranslationTargets {
  import opened Wrappers
  import opened TranslationFields
  import opened TranslationBatch

  type Values = map<string, string>
  type Extract = string -> string

  /** getDerivedTextFieldKey: bodyHtml derives bodyText when both are fields of the job. */
  function DerivedTextFieldKey(key: string, fieldKeys: set<string>): (r: Option<string>)
    ensures r.Some? ==> r.value in fieldKeys
  {
    if |key| < 4 || key[|key| - 4..] != "Html" then None
    else if key[..|key| - 4] + "Text" in fieldKeys then Some(key[..|key| - 4] + "Text")
    else None
  }

  /** Different fields derive different texts. */
  lemma DerivedFromOne(a: string, b: string, fieldKeys: set<string>)
    requires DerivedTextFieldKey(a, fieldKeys).Some?
    requires DerivedTextFieldKey(a, fieldKeys) == DerivedTextFieldKey(b, fieldKeys)
    ensures a == b
  {
    var t := DerivedTextFieldKey(a, fieldKeys).value;
    assert t[..|t| - 4] == a[..|a| - 4];
    assert t[..|t| - 4] == b[..|b| - 4];
    assert a == a[..|a| - 4] + a[|a| - 4..];
    assert b == b[..|b| - 4] + b[|b| - 4..];
  }

  /** `html` ends in Html, and `text` is what it is with Text in that place. */
  ghost predicate TextOf(html: string, text: string) {
    exists stem: string :: html == stem + "Html" && text == stem + "Text"
  }

  lemma DerivedIff(key: string, fieldKeys: set<string>, text: string)
    ensures DerivedTextFieldKey(key, fieldKeys) == Some(text) <==> text in fieldKeys && TextOf(key, text)
  {
    if DerivedTextFieldKey(key, fieldKeys) == Some(text) {
      var stem := key[..|key| - 4];
      assert key == stem + "Html" && text == stem + "Text";
    }
    if TextOf(key, text) {
      var stem: string :| key == stem + "Html" && text == stem + "Text";
      assert key[..|key| - 4] == stem && key[|key| - 4..] == "Html";
    }
  }

  predicate IsHtml(f: Field) {
    f.isHtml
  }

  function HtmlFields(fields: seq<Field>): seq<Field> {
    Filter(fields, IsHtml)
  }

  function DerivedKeys(fields: seq<Field>): set<string> {
    set f | f in HtmlFields(fields)
        && DerivedTextFieldKey(f.fieldKey, Keys(fields)).Some? :: DerivedTextFieldKey(f.fieldKey, Keys(fields)).value
  }

  function PlainFields(fields: seq<Field>): seq<Field> {
    Filter(fields, (f: Field) => !f.isHtml && f.fieldKey !in DerivedKeys(fields))
  }

  /** Fields to translate as plain text: not HTML, and not the Text beside an Html field of HTML. */
  lemma PlainIff(fields: seq<Field>, f: Field)
    ensures f in HtmlFields(fields) <==> f in fields && f.isHtml
    ensures f in PlainFields(fields)
      <==> f in fields && !f.isHtml && forall h :: h in fields && h.isHtml ==> !TextOf(h.fieldKey, f.fieldKey)
  {
    forall h: Field { DerivedIff(h.fieldKey, Keys(fields), f.fieldKey); }
    if f in fields {
      assert f.fieldKey in DerivedKeys(fields) <==> exists h ::
          h in HtmlFields(fields) && DerivedTextFieldKey(h.fieldKey, Keys(fields)) == Some(f.fieldKey);
    }
  }

  lemma {:induction false} FilterKeepsNormalForm(fields: seq<Field>, p: Field -> bool)
    requires NormalForm(fields)
    ensures NormalForm(Filter(fields, p))
  {
    if fields != [] {
      FilterKeepsNormalForm(fields[1..], p);
      var rest, r := Filter(fields[1..], p), Filter(fields, p);
      forall i, j | 0 <= i < j < |r| ensures r[i].fieldKey != r[j].fieldKey {
        if p(fields[0]) {
          assert r[j] == rest[j - 1] && r[j] in fields[1..];
        }
      }
    }
  }

  // ----- what one language ends up with -----

  function PlainValues(plain: seq<Field>, items: seq<Item>, l: Language): Values {
    if plain == [] then map[]
    else PlainValues(plain[..|plain| - 1], items, l)[plain[|plain| - 1].fieldKey := Text(items, plain[|plain| - 1], l)]
  }

  /** Writing one HTML field and the text derived from it. */
  function WithHtml(values: Values, f: Field, keys: set<string>, html: string, extract: Extract): Values {
    var derived := DerivedTextFieldKey(f.fieldKey, keys);
    if derived.Some? then values[f.fieldKey := html][derived.value := extract(html)] else values[f.fieldKey := html]
  }

  function HtmlValues(values: Values, html: seq<Field>, keys: set<string>, items: seq<Item>, l: Language,
          extract: Extract): Values {
    if html == [] then values
    else
      var f := html[|html| - 1];
      WithHtml(HtmlValues(values, html[..|html| - 1], keys, items, l, extract), f, keys, Text(items, f, l), extract)
  }

  function ValuesFor(fields: seq<Field>, texts: seq<Item>, htmls: seq<Item>, l: Language, extract: Extract): Values {
    HtmlValues(PlainValues(PlainFields(fields), texts, l), HtmlFields(fields), Keys(fields), htmls, l, extract)
  }

  // ----- the loops -----

  function Current(m: map<Language, Values>, l: Language): Values {
    if l in m then m[l] else map[]
  }

  lemma NextIsNew(languages: seq<Language>, i: nat)
    requires Distinct(languages) && i < |languages|
    ensures languages[i] !in languages[..i]
  {
    assert languages == languages[..i] + languages[i..];
    DistinctSplit(languages[..i], languages[i..]);
    assert languages[i..][0] == languages[i];
  }

  /** The plain field is written for the languages in `done`. */
  ghost predicate PlainWritten(translated: map<Language, Values>, r: map<Language, Values>, f: Field,
          done: seq<Language>, texts: map<Language, string>) {
    && r.Keys == translated.Keys + ToSet(done)
    && (forall l :: l in done ==> l in texts && r[l] == Current(translated, l)[f.fieldKey := texts[l]])
    && forall l :: l !in done ==> Current(r, l) == Current(translated, l)
  }

  lemma PlainWrittenNext(translated: map<Language, Values>, r: map<Language, Values>, f: Field, done: seq<Language>,
          texts: map<Language, string>, l: Language)
    requires PlainWritten(translated, r, f, done, texts) && l !in done && l in texts
    ensures PlainWritten(translated, r[l := Current(r, l)[f.fieldKey := texts[l]]], f, done + [l], texts)
  {
  }

  /** The inner loop over the languages for one plain field. */
  method AddPlain(translated: map<Language, Values>, f: Field, languages: seq<Language>, texts: map<Language, string>)
    returns (r: map<Language, Values>)
    requires Distinct(languages)
    requires forall l :: l in languages ==> l in texts
    ensures r.Keys == translated.Keys + ToSet(languages)
    ensures forall l :: l in languages ==> r[l] == Current(translated, l)[f.fieldKey := texts[l]]
  {
    r := translated;
    for i := 0 to |languages|
      invariant PlainWritten(translated, r, f, languages[..i], texts)
    {
      var l := languages[i];
      NextIsNew(languages, i);
      PlainWrittenNext(translated, r, f, languages[..i], texts, l);
      assert languages[..i + 1] == languages[..i] + [l];
      var current := Current(r, l);
      current := current[f.fieldKey := texts[l]];
      r := r[l := current];
    }
    assert languages[..|languages|] == languages;
  }

  /** The HTML field is written for the languages in `done`. */
  ghost predicate HtmlWritten(translated: map<Language, Values>, r: map<Language, Values>, f: Field, keys: set<string>,
          done: seq<Language>,
                              htmls: map<Language, string>, extract: Extract) {
    && r.Keys == translated.Keys + ToSet(done)
    && (forall l :: l in done ==> l in htmls && r[l] == WithHtml(Current(translated, l), f, keys, htmls[l], extract))
    && forall l :: l !in done ==> Current(r, l) == Current(translated, l)
  }

  lemma HtmlWrittenNext(translated: map<Language, Values>, r: map<Language, Values>, f: Field, keys: set<string>,
          done: seq<Language>,
                        htmls: map<Language, string>, extract: Extract, l: Language)
    requires HtmlWritten(translated, r, f, keys, done, htmls, extract) && l !in done && l in htmls
    ensures HtmlWritten(translated, r[l := WithHtml(Current(r, l), f, keys, htmls[l], extract)], f, keys,
      done + [l], htmls, extract)
  {
  }

  /** The inner loop over the languages for one HTML field. */
  method AddHtml(translated: map<Language, Values>, f: Field, keys: set<string>, languages: seq<Language>,
          htmls: map<Language, string>, extract: Extract)
    returns (r: map<Language, Values>)
    requires Distinct(languages)
    requires forall l :: l in languages ==> l in htmls
    ensures r.Keys == translated.Keys + ToSet(languages)
    ensures forall l :: l in languages ==> r[l] == WithHtml(Current(translated, l), f, keys, htmls[l], extract)
  {
    r := translated;
    var derived := DerivedTextFieldKey(f.fieldKey, keys);
    for i := 0 to |languages|
      invariant HtmlWritten(translated, r, f, keys, languages[..i], htmls, extract)
    {
      var l := languages[i];
      NextIsNew(languages, i);
      HtmlWrittenNext(translated, r, f, keys, languages[..i], htmls, extract, l);
      assert languages[..i + 1] == languages[..i] + [l];
      var current := Current(r, l);
      current := current[f.fieldKey := htmls[l]];
      if derived.Some? {
        current := current[derived.value := extract(htmls[l])];
      }
      r := r[l := current];
    }
    assert languages[..|languages|] == languages;
  }

  /** The first `n` plain fields are in place for every language. */
  ghost predicate PlainDone(r: map<Language, Values>, plain: seq<Field>, n: nat, languages: seq<Language>,
          items: seq<Item>) {
    && n <= |plain| && r.Keys == (if n == 0 then {} else ToSet(languages))
    && forall l :: l in languages ==> Current(r, l) == PlainValues(plain[..n], items, l)
  }

  lemma PlainStep(r: map<Language, Values>, r': map<Language, Values>, plain: seq<Field>, n: nat,
          languages: seq<Language>, items: seq<Item>)
    requires PlainDone(r, plain, n, languages, items) && n < |plain|
    requires r'.Keys == r.Keys + ToSet(languages)
    requires forall l :: l in languages ==> r'[l] == Current(r, l)[plain[n].fieldKey := Text(items, plain[n], l)]
    ensures PlainDone(r', plain, n + 1, languages, items)
  {
    forall l | l in languages ensures Current(r', l) == PlainValues(plain[..n + 1], items, l) {
      PlainNext(plain, n, items, l);
    }
  }

  lemma PlainNext(plain: seq<Field>, n: nat, items: seq<Item>, l: Language)
    requires n < |plain|
    ensures PlainValues(plain[..n + 1], items, l)
      == PlainValues(plain[..n], items, l)[plain[n].fieldKey := Text(items, plain[n], l)]
  {
    assert plain[..n + 1][..n] == plain[..n];
  }

  method AddAllPlain(plain: seq<Field>, languages: seq<Language>, texts: map<string, map<Language, string>>,
          ghost items: seq<Item>)
    returns (r: map<Language, Values>)
    requires Distinct(languages)
    requires forall f :: f in plain ==> AnswersField(texts, f, languages, items)
    ensures PlainDone(r, plain, |plain|, languages, items)
  {
    r := map[];
    for i := 0 to |plain|
      invariant PlainDone(r, plain, i, languages, items)
    {
      assert plain[i] in plain;
      assert AnswersField(texts, plain[i], languages, items);
      var r' := AddPlain(r, plain[i], languages, texts[plain[i].fieldKey]);
      PlainStep(r, r', plain, i, languages, items);
      r := r';
    }
  }

  /** The first `n` HTML fields have been written over what was there. */
  ghost predicate HtmlDone(was: map<Language, Values>, r: map<Language, Values>, html: seq<Field>, n: nat,
          keys: set<string>,
                           languages: seq<Language>, items: seq<Item>, extract: Extract) {
    && n <= |html| && r.Keys == was.Keys + (if n == 0 then {} else ToSet(languages))
    && forall l :: l in languages ==> Current(r, l) == HtmlValues(Current(was, l), html[..n], keys, items, l, extract)
  }

  lemma HtmlStep(was: map<Language, Values>, r: map<Language, Values>, r': map<Language, Values>, html: seq<Field>,
          n: nat, keys: set<string>,
                 languages: seq<Language>, items: seq<Item>, extract: Extract)
    requires HtmlDone(was, r, html, n, keys, languages, items, extract) && n < |html|
    requires r'.Keys == r.Keys + ToSet(languages)
    requires forall l ::
      l in languages ==> r'[l] == WithHtml(Current(r, l), html[n], keys, Text(items, html[n], l), extract)
    ensures HtmlDone(was, r', html, n + 1, keys, languages, items, extract)
  {
    assert html[..n + 1][..n] == html[..n];
  }

  method AddAllHtml(translated: map<Language, Values>, html: seq<Field>, keys: set<string>, languages: seq<Language>,
                    htmls: map<string, map<Language, string>>, ghost items: seq<Item>, extract: Extract)
    returns (r: map<Language, Values>)
    requires Distinct(languages)
    requires forall f :: f in html ==> AnswersField(htmls, f, languages, items)
    ensures HtmlDone(translated, r, html, |html|, keys, languages, items, extract)
  {
    r := translated;
    for i := 0 to |html|
      invariant HtmlDone(translated, r, html, i, keys, languages, items, extract)
    {
      assert html[i] in html;
      assert AnswersField(htmls, html[i], languages, items);
      var r' := AddHtml(r, html[i], keys, languages, htmls[html[i].fieldKey], extract);
      HtmlStep(translated, r, r', html, i, keys, languages, items, extract);
      r := r';
    }
  }

  function Targets(targetLanguages: seq<Language>, sourceLanguage: Language): seq<Language> {
    Unique(Filter(targetLanguages, l => l != sourceLanguage))
  }

  /** Neither request, where one is made, failed or came back incomplete. */
  predicate Delivered(fields: seq<Field>, targets: seq<Language>, required: bool, textReply: Option<seq<Item>>,
          htmlReply: Option<seq<Item>>) {
    || targets == [] || fields == []
    || (Arrived(textReply, PlainFields(fields), targets, required)
         && Arrived(htmlReply, HtmlFields(fields), targets, required))
  }

  /** translateFieldsToLanguages; the replies are None when a request failed. */
  method TranslateFieldsToLanguages(fields: seq<Field>, targetLanguages: seq<Language>,
          sourceLanguage: Language, required: bool,
                                    textReply: Option<seq<Item>>, htmlReply: Option<seq<Item>>, extract: Extract)
    returns (r: Option<map<Language, Values>>)
    requires NormalForm(fields)
    ensures r.Some? <==> Delivered(fields, Targets(targetLanguages, sourceLanguage), required, textReply, htmlReply)
    ensures r.Some? && fields != [] ==> r.value.Keys == ToSet(Targets(targetLanguages, sourceLanguage))
    ensures r.Some? && fields != [] ==> forall l ::
      l in r.value ==> r.value[l] == ValuesFor(fields, textReply.GetOr([]), htmlReply.GetOr([]), l, extract)
  {
    var uniqueTargets := Targets(targetLanguages, sourceLanguage);
    if uniqueTargets == [] || fields == [] {
      return Some(map[]);
    }
    UniqueIsDistinct(Filter(targetLanguages, l => l != sourceLanguage));
    FilterKeepsNormalForm(fields, (f: Field) => !f.isHtml && f.fieldKey !in DerivedKeys(fields));
    FilterKeepsNormalForm(fields, IsHtml);
    r := TranslateBoth(PlainFields(fields), HtmlFields(fields), Keys(fields), uniqueTargets, required, textReply,
        htmlReply, extract);
  }

  /** The two requests, one after the other. */
  method TranslateBoth(plain: seq<Field>, html: seq<Field>, keys: set<string>, languages: seq<Language>, required: bool,
                       textReply: Option<seq<Item>>, htmlReply: Option<seq<Item>>, extract: Extract)
    returns (r: Option<map<Language, Values>>)
    requires NormalForm(plain) && NormalForm(html) && (plain != [] || html != []) && Distinct(languages)
    ensures r.Some? <==> Arrived(textReply, plain, languages, required) && Arrived(htmlReply, html, languages, required)
    ensures r.Some? ==> r.value.Keys == ToSet(languages)
    ensures r.Some? ==> forall l :: l in r.value ==>
                        r.value[l] == HtmlValues(PlainValues(plain, textReply.GetOr([]), l), html, keys,
                          htmlReply.GetOr([]), l, extract)
  {
    var texts := TranslateBatch(plain, languages, textReply, required);
    if texts.None? {
      return None;
    }
    var translated := AddAllPlain(plain, languages, texts.value, textReply.GetOr([]));
    assert plain[..|plain|] == plain && html[..|html|] == html;
    var htmls := TranslateBatch(html, languages, htmlReply, required);
    if htmls.None? {
      return None;
    }
    var all := AddAllHtml(translated, html, keys, languages, htmls.value, htmlReply.GetOr([]), extract);
    r := Some(all);
  }

  // ----- what is delivered -----

  lemma {:induction false} PlainKeys(plain: seq<Field>, items: seq<Item>, l: Language)
    ensures PlainValues(plain, items, l).Keys == Keys(plain)
  {
    if plain != [] {
      var n := |plain| - 1;
      PlainKeys(plain[..n], items, l);
      assert plain == plain[..n] + [plain[n]];
    }
  }

  function DerivedOf(html: seq<Field>, keys: set<string>): set<string> {
    set f | f in html && DerivedTextFieldKey(f.fieldKey, keys).Some? :: DerivedTextFieldKey(f.fieldKey, keys).value
  }

  lemma {:induction false} HtmlKeys(values: Values, html: seq<Field>, keys: set<string>, items: seq<Item>,
          l: Language, extract: Extract, k: string)
    ensures k in HtmlValues(values, html, keys, items, l, extract)
      <==> k in values || k in Keys(html) || k in DerivedOf(html, keys)
  {
    if html != [] {
      var n := |html| - 1;
      HtmlKeys(values, html[..n], keys, items, l, extract, k);
      assert html == html[..n] + [html[n]];
    }
  }

  /** Each target language gets exactly the keys of the job's fields, derived texts included. */
  lemma EveryFieldIsDelivered(fields: seq<Field>, texts: seq<Item>, htmls: seq<Item>, l: Language, extract: Extract)
    ensures ValuesFor(fields, texts, htmls, l, extract).Keys == Keys(fields)
  {
    PlainKeys(PlainFields(fields), texts, l);
    forall k ensures k in ValuesFor(fields, texts, htmls, l, extract) <==> k in Keys(fields) {
      HtmlKeys(PlainValues(PlainFields(fields), texts, l), HtmlFields(fields), Keys(fields), htmls, l, extract, k);
    }
  }

  lemma {:induction false} PlainValue(plain: seq<Field>, items: seq<Item>, l: Language, f: Field)
    requires NormalForm(plain) && f in plain
    ensures f.fieldKey in PlainValues(plain, items, l) && PlainValues(plain, items, l)[f.fieldKey] == Text(items, f, l)
  {
    var n := |plain| - 1;
    if f != plain[n] {
      assert f in plain[..n];
      PlainValue(plain[..n], items, l, f);
    }
  }

  /** HTML fields leave alone every key that is neither theirs nor derived from them. */
  lemma {:induction false} HtmlFrame(values: Values, html: seq<Field>, keys: set<string>, items: seq<Item>,
          l: Language, extract: Extract, k: string)
    requires k in values && k !in Keys(html) && k !in DerivedOf(html, keys)
    ensures k in HtmlValues(values, html, keys, items, l, extract)
    ensures HtmlValues(values, html, keys, items, l, extract)[k] == values[k]
  {
    if html != [] {
      var n := |html| - 1;
      assert html[n] in html;
      HtmlFrame(values, html[..n], keys, items, l, extract, k);
    }
  }

  /** An HTML field that no other field derives, and the text derived from it, as last written. */
  lemma {:induction false} HtmlValue(values: Values, html: seq<Field>, keys: set<string>, items: seq<Item>,
          l: Language, extract: Extract, f: Field)
    requires NormalForm(html) && f in html
    ensures var r := HtmlValues(values, html, keys, items, l, extract);
            && (f.fieldKey !in DerivedOf(html, keys) ==> f.fieldKey in r && r[f.fieldKey] == Text(items, f, l))
            && (DerivedTextFieldKey(f.fieldKey, keys).Some?
                 && DerivedTextFieldKey(f.fieldKey, keys).value !in Keys(html) ==>
                  DerivedTextFieldKey(f.fieldKey, keys).value in r
                      && r[DerivedTextFieldKey(f.fieldKey, keys).value] == extract(Text(items, f, l)))
  {
    var n := |html| - 1;
    var d, dn := DerivedTextFieldKey(f.fieldKey, keys), DerivedTextFieldKey(html[n].fieldKey, keys);
    if f != html[n] {
      assert f in html[..n];
      HtmlValue(values, html[..n], keys, items, l, extract, f);
      assert f.fieldKey != html[n].fieldKey;
      assert html[n] in html;
      if d.Some? && d == dn { DerivedFromOne(f.fieldKey, html[n].fieldKey, keys); }
    } else if dn.Some? {
      assert dn.value in DerivedOf(html, keys);
    }
  }

  /** Plain fields get their translation, HTML fields theirs, derived texts the text of the
      translated HTML. */
  lemma DeliveredValues(fields: seq<Field>, texts: seq<Item>, htmls: seq<Item>, l: Language, extract: Extract, f: Field)
    requires NormalForm(fields) && f in fields
    ensures var r := ValuesFor(fields, texts, htmls, l, extract);
            && (f in PlainFields(fields) ==> f.fieldKey in r && r[f.fieldKey] == Text(texts, f, l))
            && (f.isHtml && f.fieldKey !in DerivedKeys(fields)
                ==> f.fieldKey in r && r[f.fieldKey] == Text(htmls, f, l))
            && (forall h :: h in HtmlFields(fields) && !f.isHtml
                            && DerivedTextFieldKey(h.fieldKey, Keys(fields)) == Some(f.fieldKey) ==>
                  f.fieldKey in r && r[f.fieldKey] == extract(Text(htmls, h, l)))
  {
    var plain, html, keys := PlainFields(fields), HtmlFields(fields), Keys(fields);
    FilterKeepsNormalForm(fields, (g: Field) => !g.isHtml && g.fieldKey !in DerivedKeys(fields));
    FilterKeepsNormalForm(fields, IsHtml);
    var values := PlainValues(plain, texts, l);
    if f in plain {
      PlainValue(plain, texts, l, f);
      HtmlFrame(values, html, keys, htmls, l, extract, f.fieldKey);
    }
    if f.isHtml {
      HtmlValue(values, html, keys, htmls, l, extract, f);
    }
    forall h | h in html && !f.isHtml && DerivedTextFieldKey(h.fieldKey, keys) == Some(f.fieldKey)
      ensures f.fieldKey in ValuesFor(fields, texts, htmls, l, extract)
      ensures ValuesFor(fields, texts, htmls, l, extract)[f.fieldKey] == extract(Text(htmls, h, l))
    {
      HtmlValue(values, html, keys, htmls, l, extract, h);
    }
  }

}
