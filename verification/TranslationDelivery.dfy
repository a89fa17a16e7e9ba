// What a worker does with a claimed job: translate every field, then store language by language.
module TranslationDelivery {
  import opened Wrappers
  import opened Strings
  import opened TranslationFields
  import opened TranslationBatch
  import opened TranslationTargets
  import opened TranslationStore

  datatype Job = Job(entity: string, sourceUpdatedAt: int, fields: Option<seq<Entry>>, skipLanguages: seq<Language>,
                     sourceLanguage: Option<Language>, targetLanguages: seq<Language>)

  function JobFields(job: Job): seq<Field> {
    if job.fields.None? then [] else Normalized(Read(job.fields.value))
  }

  function Source(job: Job): Language {
    job.sourceLanguage.GetOr("ko")
  }

  /** The explicit targets of the job, or else every language, without the skipped ones. */
  function JobTargets(job: Job, all: seq<Language>): seq<Language> {
    if job.targetLanguages != []
        then Unique(Filter(job.targetLanguages, l => l != Source(job) && l !in job.skipLanguages))
    else Filter(all, l => l != Source(job) && l !in job.skipLanguages)
  }

  /** Which languages a worker translates to: the explicit targets or else all, but neither the
      source language, which is ko unless the job names one, nor a skipped one. */
  lemma TargetIff(job: Job, all: seq<Language>, l: Language)
    ensures l in JobTargets(job, all)
      <==> l in (if job.targetLanguages == [] then all else job.targetLanguages)
           && Some(l) != (if job.sourceLanguage.None? then Some("ko") else job.sourceLanguage)
           && l !in job.skipLanguages
  {
  }

  /** The job that queueEntityTranslations writes for some fields. */
  function QueuedJob(entity: string, sourceUpdatedAt: int, fields: seq<Field>, skip: seq<Language>,
          sourceLanguage: Option<Language>, requested: seq<Language>): Job {
    var source := sourceLanguage.GetOr("ko");
    var skipLanguages := Unique(skip + [source]);
    Job(entity, sourceUpdatedAt, Some(Encoded(Normalized(fields))), skipLanguages, Some(source),
        Unique(Filter(requested, l => l != source && l !in skipLanguages)))
  }

  /** A request that names languages is kept to them exactly if one of them is left when the source
      and the skipped languages are taken out, or if none of all languages is: an explicit list
      that becomes empty is read as all languages. */
  lemma RequestIsKeptIff(entity: string, t: int, fields: seq<Field>, skip: seq<Language>,
          sourceLanguage: Option<Language>, requested: seq<Language>, all: seq<Language>)
    requires requested != []
    ensures var job := QueuedJob(entity, t, fields, skip, sourceLanguage, requested);
      var out := skip + [sourceLanguage.GetOr("ko")];
      (forall l :: l in JobTargets(job, all) ==> l in requested)
      <==> (exists l :: l in requested && l !in out) || (forall l :: l in all ==> l in out)
  {
    var job := QueuedJob(entity, t, fields, skip, sourceLanguage, requested);
    var out := skip + [sourceLanguage.GetOr("ko")];
    forall l ensures l in job.targetLanguages <==> l in requested && l !in out {
    }
    if l :| l in requested && l !in out {
      assert l in job.targetLanguages;
    } else if l :| l in all && l !in out {
      EmptyOrNot(job.targetLanguages);
      TargetIff(job, all, l);
    }
  }

  lemma EmptyOrNot(s: seq<Language>)
    ensures s == [] || exists l :: l in s
  {
    assert s == [] || s[0] in s;
  }

  /** Asked for Korean only, from Korean, a worker translates to every other language. */
  lemma SourceOnlyBecomesAll(fields: seq<Field>)
    ensures JobTargets(QueuedJob("e", 0, fields, [], None, ["ko"]), ["ko", "en", "vi"]) == ["en", "vi"]
  {
    var job := QueuedJob("e", 0, fields, [], None, ["ko"]);
    assert forall l :: l in job.skipLanguages <==> l == "ko";
    EmptyOrNot(job.targetLanguages);
  }

  function JobValues(job: Job, texts: Option<seq<Item>>, htmls: Option<seq<Item>>, l: Language,
          extract: Extract): Values {
    ValuesFor(JobFields(job), texts.GetOr([]), htmls.GetOr([]), l, extract)
  }

  /** The row of one field in one language is at least as new as the job, and holds the job's
      text when it is exactly as new. A blank text is not stored. */
  ghost predicate HasText(rows: Rows, job: Job, l: Language, key: string, text: string) {
    Trim(text) != "" ==>
      var k := RowKey(job.entity, key, l);
      && k in rows && rows[k].sourceUpdatedAt >= job.sourceUpdatedAt
      && (rows[k].sourceUpdatedAt == job.sourceUpdatedAt ==> rows[k].content == Trim(text))
  }

  ghost predicate LanguageDelivered(rows: Rows, job: Job, l: Language, values: Values) {
    forall key :: key in values ==> HasText(rows, job, l, key, values[key])
  }

  /** Rows of other languages, entities or fields. */
  ghost predicate Unrelated(job: Job, k: RowKey, languages: seq<Language>) {
    k.entity != job.entity || k.language !in languages || k.fieldKey !in Keys(JobFields(job))
  }

  ghost predicate SameRow(a: Rows, b: Rows, k: RowKey) {
    (k in a <==> k in b) && (k in a ==> a[k] == b[k])
  }

  // ----- one language -----

  /** Object.entries */
  method Entries(values: Values) returns (s: seq<Field>)
    ensures forall f :: f in s <==> f.fieldKey in values && f == Field(f.fieldKey, values[f.fieldKey], false)
    ensures forall i, j :: 0 <= i < j < |s| ==> s[i].fieldKey != s[j].fieldKey
  {
    s := [];
    var left := values.Keys;
    while left != {}
      invariant left <= values.Keys
      invariant forall f ::
        f in s <==> f.fieldKey in values && f.fieldKey !in left && f == Field(f.fieldKey, values[f.fieldKey], false)
      invariant forall i, j :: 0 <= i < j < |s| ==> s[i].fieldKey != s[j].fieldKey
      decreases left
    {
      var key :| key in left;
      forall i | 0 <= i < |s| ensures s[i].fieldKey != key {
        assert s[i] in s;
      }
      s := s + [Field(key, values[key], false)];
      left := left - {key};
    }
  }

  /** A non-blank text survives the normalisation of the entries. */
  lemma TextIsAnEntry(values: Values, s: seq<Field>, key: string)
    requires forall f :: f in s <==> f.fieldKey in values && f == Field(f.fieldKey, values[f.fieldKey], false)
    requires forall i, j :: 0 <= i < j < |s| ==> s[i].fieldKey != s[j].fieldKey
    requires forall k :: k in values ==> Trim(k) == k
    requires key in values && key != "" && Trim(values[key]) != ""
    ensures Field(key, Trim(values[key]), false) in Normalized(s)
  {
    var f := Field(key, values[key], false);
    assert f in s;
    var i :| 0 <= i < |s| && s[i] == f;
    forall j | i < j < |s| && Kept(s[j]) ensures Cleaned(s[j]).fieldKey != key {
      assert s[j] in s;
    }
    LastWins(s);
    assert LastOfKey(s, i, Cleaned(f));
  }

  lemma LanguageIsStored(rows: Rows, job: Job, l: Language, values: Values, s: seq<Field>)
    requires forall f :: f in s <==> f.fieldKey in values && f == Field(f.fieldKey, values[f.fieldKey], false)
    requires forall i, j :: 0 <= i < j < |s| ==> s[i].fieldKey != s[j].fieldKey
    requires forall k :: k in values ==> Trim(k) == k && k != ""
    ensures LanguageDelivered(StoreAll(rows, job.entity, l, Normalized(s), job.sourceUpdatedAt), job, l, values)
  {
    NormalizedIsNormalForm(s);
    forall key | key in values && Trim(values[key]) != ""
      ensures HasText(StoreAll(rows, job.entity, l, Normalized(s), job.sourceUpdatedAt), job, l, key, values[key])
    {
      TextIsAnEntry(values, s, key);
      StoreAllHas(rows, job.entity, l, Normalized(s), job.sourceUpdatedAt, Field(key, Trim(values[key]), false));
    }
  }

  /** Storing one language leaves the others and the other fields alone. */
  lemma OthersAreKept(rows: Rows, job: Job, l: Language, values: Values, s: seq<Field>, k: RowKey)
    requires forall f :: f in s ==> f.fieldKey in values
    requires forall k :: k in values ==> Trim(k) == k
    requires k.entity != job.entity || k.language != l || k.fieldKey !in values
    ensures SameRow(rows, StoreAll(rows, job.entity, l, Normalized(s), job.sourceUpdatedAt), k)
  {
    LastWins(s);
    forall e | e in Normalized(s) ensures RowKey(job.entity, e.fieldKey, l) != k {
      assert IsLast(s, e);
      var i: nat :| LastOfKey(s, i, e);
      assert s[i] in s;
    }
    StoreAllFrame(rows, job.entity, l, Normalized(s), job.sourceUpdatedAt, k);
  }

  method StoreLanguage(store: ContentTranslations, job: Job, l: Language, values: Values)
    requires forall k :: k in values ==> Trim(k) == k && k != ""
    modifies store
    ensures LanguageDelivered(store.rows, job, l, values)
    ensures forall k: RowKey ::
      k.entity != job.entity || k.language != l || k.fieldKey !in values ==> SameRow(old(store.rows), store.rows, k)
  {
    var entries := Entries(values);
    store.StoreEntityTranslations(job.entity, l, entries, job.sourceUpdatedAt);
    LanguageIsStored(old(store.rows), job, l, values, entries);
    forall k: RowKey | k.entity != job.entity || k.language != l || k.fieldKey !in values
        ensures SameRow(old(store.rows), store.rows, k) {
      OthersAreKept(old(store.rows), job, l, values, entries, k);
    }
  }

  // ----- the job -----

  /** The try block of processJob. It completes exactly when every reply that was needed came
      back complete; then every language has every field, and a failed job stores nothing. */
  method ProcessFields(store: ContentTranslations, job: Job, all: seq<Language>, textReply: Option<seq<Item>>,
          htmlReply: Option<seq<Item>>, extract: Extract)
    returns (completed: bool)
    requires Distinct(all)
    modifies store
    ensures completed <==> Delivered(JobFields(job), Targets(JobTargets(job, all), Source(job)), true,
      textReply, htmlReply)
    ensures !completed ==> store.rows == old(store.rows)
    ensures completed ==> forall l :: l in JobTargets(job, all) ==>
                          LanguageDelivered(store.rows, job, l, JobValues(job, textReply, htmlReply, l, extract))
    ensures forall k :: Unrelated(job, k, JobTargets(job, all)) ==> SameRow(old(store.rows), store.rows, k)
  {
    var fields := ParseQueuedFields(job.fields);
    var targetLanguages := JobTargets(job, all);
    var byLanguage := TranslateFieldsToLanguages(fields, targetLanguages, Source(job), true, textReply,
        htmlReply, extract);
    if byLanguage.None? {
      return false;
    }
    completed := true;
    if fields == [] {
      return;
    }
    TargetsAreDistinct(job, all);
    ghost var values := l => JobValues(job, textReply, htmlReply, l, extract);
    forall l | l in byLanguage.value ensures byLanguage.value[l] == values(l) && values(l).Keys == Keys(fields) {
      EveryFieldIsDelivered(fields, textReply.GetOr([]), htmlReply.GetOr([]), l, extract);
    }
    StoreLanguages(store, job, targetLanguages, byLanguage.value, values);
    assert targetLanguages[..|targetLanguages|] == targetLanguages;
  }

  lemma {:induction false} FilterKeepsDistinct(s: seq<Language>, p: Language -> bool)
    requires Distinct(s)
    ensures Distinct(Filter(s, p))
  {
    if s != [] {
      assert s == [s[0]] + s[1..];
      DistinctSplit([s[0]], s[1..]);
      FilterKeepsDistinct(s[1..], p);
      DistinctAppend(if p(s[0]) then [s[0]] else [], Filter(s[1..], p));
    }
  }

  lemma TargetsAreDistinct(job: Job, all: seq<Language>)
    requires Distinct(all)
    ensures Distinct(JobTargets(job, all))
    ensures forall l :: l in JobTargets(job, all) <==> l in Targets(JobTargets(job, all), Source(job))
  {
    if job.targetLanguages != [] {
      UniqueIsDistinct(Filter(job.targetLanguages, l => l != Source(job) && l !in job.skipLanguages));
    } else {
      FilterKeepsDistinct(all, l => l != Source(job) && l !in job.skipLanguages);
    }
  }

  /** The first `n` languages are delivered and unrelated rows are as they were. */
  ghost predicate StoredSoFar(was: Rows, now: Rows, job: Job, languages: seq<Language>, n: nat,
          values: Language -> Values) {
    && n <= |languages|
    && (forall l :: l in languages[..n] ==> LanguageDelivered(now, job, l, values(l)))
    && forall k :: Unrelated(job, k, languages) ==> SameRow(was, now, k)
  }

  lemma NextLanguage(was: Rows, now: Rows, next: Rows, job: Job, languages: seq<Language>, n: nat,
          values: Language -> Values)
    requires StoredSoFar(was, now, job, languages, n, values) && n < |languages| && Distinct(languages)
    requires LanguageDelivered(next, job, languages[n], values(languages[n]))
    requires forall k: RowKey ::
      k.entity != job.entity || k.language != languages[n] || k.fieldKey !in Keys(JobFields(job))
      ==> SameRow(now, next, k)
    ensures StoredSoFar(was, next, job, languages, n + 1, values)
  {
    NextIsNew(languages, n);
    forall l | l in languages[..n + 1] ensures LanguageDelivered(next, job, l, values(l)) {
      if l != languages[n] {
        assert l in languages[..n];
      }
    }
    forall k | Unrelated(job, k, languages) ensures SameRow(was, next, k) {
      assert SameRow(was, now, k);
      assert languages[n] in languages;
    }
  }

  /** The loop over the target languages. */
  method StoreLanguages(store: ContentTranslations, job: Job, languages: seq<Language>,
          byLanguage: map<Language, Values>, ghost values: Language -> Values)
    requires Distinct(languages) && byLanguage.Keys == ToSet(languages)
    requires forall l :: l in byLanguage ==> byLanguage[l] == values(l) && byLanguage[l].Keys == Keys(JobFields(job))
    modifies store
    ensures StoredSoFar(old(store.rows), store.rows, job, languages, |languages|, values)
  {
    JobKeysAreTrimmed(job);
    for i := 0 to |languages|
      invariant StoredSoFar(old(store.rows), store.rows, job, languages, i, values)
    {
      var language := languages[i];
      assert language in languages;
      ghost var before := store.rows;
      StoreLanguage(store, job, language, byLanguage[language]);
      NextLanguage(old(store.rows), before, store.rows, job, languages, i, values);
    }
  }

  lemma JobKeysAreTrimmed(job: Job)
    ensures forall k :: k in Keys(JobFields(job)) ==> Trim(k) == k && k != ""
  {
    if job.fields.Some? { NormalizedIsNormalForm(Read(job.fields.value)); }
  }

}
