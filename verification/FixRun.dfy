/** A `--fix` run and a `--review` run over one locale: batches that finish in any order. */
module FixRun {
  import opened Text
  import opened Dictionaries
  import opened FlatKeys
  import opened FlatPaths
  import opened FlatRebuild
  import opened FlatGaps
  import opened Overlay
  import opened Guard

  // ------------------------------------------------------------------- the gate

  function Missing(source: map<string, string>, locale: map<string, string>): map<string, string> {
    map k | k in source && (k !in locale || Strip(locale[k]) == "") :: source[k]
  }

  function Extra(source: map<string, string>, locale: map<string, string>): set<string> {
    set k | k in locale && k !in source
  }

  /** The missing keys that are offered to the model: those whose source leaf is a text. */
  function MissingTexts(source: Value, locale: Value): map<string, string> {
    FlattenedAreLeaves(source, "");
    map k | k in Missing(Flatten(source), Flatten(locale)) && FlattenValues(source, "")[k].Str? ::
      Missing(Flatten(source), Flatten(locale))[k]
  }

  /** Numbers and booleans of the source that the locale lacks. */
  function Verbatim(source: Value, locale: Value): map<string, Value> {
    var values := FlattenValues(source, "");
    map k | k in values && k !in FlattenValues(locale, "") && !values[k].Str? :: values[k]
  }

  // -------------------------------------------------------------------- batches

  function Batches(keys: seq<string>, size: nat): seq<seq<string>>
    requires size > 0
    decreases |keys|
  {
    if keys == [] then []
    else if |keys| <= size then [keys]
    else [keys[..size]] + Batches(keys[size..], size)
  }

  ghost predicate NoDuplicates<T>(s: seq<T>) {
    forall i, j :: 0 <= i < j < |s| ==> s[i] != s[j]
  }

  ghost function KeysOf(batches: seq<seq<string>>): set<string> {
    set b, k | 0 <= b < |batches| && k in batches[b] :: k
  }

  /** No key twice, neither in one batch nor in two. */
  ghost predicate Partition(batches: seq<seq<string>>) {
    && (forall b :: 0 <= b < |batches| ==> NoDuplicates(batches[b]))
    && (forall a, b, k | 0 <= a < b < |batches| && k in batches[a] :: k !in batches[b])
  }

  lemma {:induction false} BatchesPartition(keys: seq<string>, size: nat)
    requires size > 0 && NoDuplicates(keys)
    ensures Partition(Batches(keys, size))
    ensures forall k :: k in KeysOf(Batches(keys, size)) <==> k in keys
    decreases |keys|
  {
    var all := Batches(keys, size);
    if |keys| > size {
      var rest := Batches(keys[size..], size);
      BatchesPartition(keys[size..], size);
      assert keys == keys[..size] + keys[size..];
      assert forall b :: 1 <= b < |all| ==> all[b] == rest[b - 1];
      forall b, k | 1 <= b < |all| && k in all[b] ensures k !in all[0] {
        assert k in rest[b - 1] && k in KeysOf(rest) && k in keys[size..];
      }
      forall a, b, k | 0 <= a < b < |all| && k in all[a] ensures k !in all[b] {
        if a > 0 { assert k in rest[a - 1]; }
      }
      forall k | k in keys ensures k in KeysOf(all) {
        if k in keys[..size] { assert k in all[0]; } else {
          assert k in KeysOf(rest);
          var b :| 0 <= b < |rest| && k in rest[b];
          assert k in all[b + 1];
        }
      }
    } else if keys != [] {
      assert all == [keys];
      forall k | k in keys ensures k in KeysOf(all) { assert k in all[0]; }
    }
  }

  lemma {:induction false} DistinctSize(s: seq<string>)
    requires NoDuplicates(s)
    ensures |set k | k in s| == |s|
  {
    if s != [] {
      DistinctSize(s[1..]);
      assert (set k | k in s) == {s[0]} + set k | k in s[1..];
    }
  }

  /** What a batch came back with: an exception, or a JSON object of replies. */
  datatype BatchReply = Failed | Parsed(replies: map<string, Reply>)

  /** The guarded translation of one key of a batch. */
  function Answer(batch: BatchReply, source: string, key: string): Option<string> {
    match batch
    case Failed => None
    case Parsed(replies) => GuardTranslation(source, if key in replies then replies[key] else NotText)
  }

  /** The order in which the futures complete. */
  ghost predicate Completion(completed: seq<nat>, count: nat) {
    && NoDuplicates(completed)
    && InRange(completed, count)
    && (forall b: nat :: b < count ==> b in completed)
  }

  ghost predicate InRange(completed: seq<nat>, count: nat) {
    forall i :: 0 <= i < |completed| ==> completed[i] < count
  }

  /** What batch `b` answers for a key: a text to write, or nothing. */
  type Answers = (nat, string) -> Option<string>

  /** Every key of the completed batches has the text that its own batch answered, and no other key has one. */
  ghost predicate Settled(texts: map<string, string>, batches: seq<seq<string>>, answer: Answers, completed: seq<nat>)
    requires InRange(completed, |batches|)
  {
    && (forall b, k | b in completed && k in batches[b] :: Lookup(texts, k) == answer(b, k))
    && (forall k <- texts :: exists b <- completed :: k in batches[b])
  }

  ghost function SeenIn(batches: seq<seq<string>>, completed: seq<nat>): set<string>
    requires InRange(completed, |batches|)
  {
    set b, k | b in completed && k in batches[b] :: k
  }

  lemma NothingSettled(batches: seq<seq<string>>, answer: Answers)
    ensures Settled(map[], batches, answer, []) && SeenIn(batches, []) == {}
  {
  }

  lemma AllSeen(batches: seq<seq<string>>, completed: seq<nat>)
    requires Completion(completed, |batches|)
    ensures SeenIn(batches, completed) == KeysOf(batches)
  {
  }

  lemma SeenAppend(batches: seq<seq<string>>, before: seq<nat>, batch: nat)
    requires InRange(before, |batches|) && batch < |batches|
    ensures InRange(before + [batch], |batches|)
    ensures SeenIn(batches, before + [batch]) == SeenIn(batches, before) + set k | k in batches[batch]
  {
    forall k: string
      ensures k in SeenIn(batches, before + [batch]) <==> k in SeenIn(batches, before) || k in batches[batch]
    {
      if k in SeenIn(batches, before) {
        var b :| b in before && k in batches[b];
        assert b in before + [batch];
      } else if k in batches[batch] {
        assert batch in before + [batch];
      }
    }
  }

  lemma ChunkIsNew(batches: seq<seq<string>>, before: seq<nat>, batch: nat, k: string)
    requires InRange(before, |batches|) && batch < |batches| && Partition(batches) && batch !in before
    requires k in batches[batch]
    ensures k in KeysOf(batches) && k !in SeenIn(batches, before)
  {
  }

  /** The keys of a batch that has just completed are new. */
  lemma FreshChunk(texts: map<string, string>, batches: seq<seq<string>>, answer: Answers, before: seq<nat>, batch: nat)
    requires InRange(before, |batches|) && Settled(texts, batches, answer, before)
    requires batch < |batches| && Partition(batches) && batch !in before
    ensures NoDuplicates(batches[batch]) && InRange(before + [batch], |batches|)
    ensures forall k <- batches[batch] :: k in KeysOf(batches) && k !in texts
    ensures |SeenIn(batches, before + [batch])| == |SeenIn(batches, before)| + |batches[batch]|
  {
    var chunk := set k | k in batches[batch];
    SeenAppend(batches, before, batch);
    DistinctSize(batches[batch]);
    forall k | k in chunk ensures k in KeysOf(batches) && k !in texts && k !in SeenIn(batches, before) {
      ChunkIsNew(batches, before, batch, k);
    }
    hide SeenIn, KeysOf, Settled, Partition;
    assert SeenIn(batches, before) !! chunk;
  }

  lemma SettledNext(start: map<string, string>, texts: map<string, string>, batches: seq<seq<string>>,
                    answer: Answers, before: seq<nat>, batch: nat)
    requires InRange(before, |batches|) && Settled(start, batches, answer, before)
    requires batch < |batches| && Partition(batches) && batch !in before
    requires forall k: string {:trigger Lookup(texts, k)} ::
      Lookup(texts, k) == if k in batches[batch] then answer(batch, k) else Lookup(start, k)
    ensures Settled(texts, batches, answer, before + [batch])
  {
    var after := before + [batch];
    forall b, k | b in after && k in batches[b] ensures Lookup(texts, k) == answer(b, k) {
      assert b in before || b == batch;
      if b in before { assert k !in batches[batch] && Lookup(start, k) == answer(b, k); }
    }
    forall k <- texts ensures exists b <- after :: k in batches[b] {
      assert Lookup(texts, k).Some?;
      if k in batches[batch] { assert batch in after; } else {
        assert k in start;
        var b :| b in before && k in batches[b];
        assert b in after;
      }
    }
  }

  /** The texts do not depend on the order in which the batches complete. */
  lemma OrderIndependent(a: map<string, string>, b: map<string, string>, batches: seq<seq<string>>, answer: Answers,
                         first: seq<nat>, second: seq<nat>)
    requires Completion(first, |batches|) && Completion(second, |batches|)
    requires Settled(a, batches, answer, first) && Settled(b, batches, answer, second)
    ensures a == b
  {
    forall k: string ensures Lookup(a, k) == Lookup(b, k) {
      if k in a {
        var i :| i in first && k in batches[i];
        assert i in second && Lookup(a, k) == answer(i, k);
      } else if k in b {
        var i :| i in second && k in batches[i];
        assert i in first && Lookup(b, k) == answer(i, k);
      }
    }
    assert forall k :: k in a <==> k in b by {
      forall k: string ensures k in a <==> k in b { assert Lookup(a, k) == Lookup(b, k); }
    }
    forall k <- a ensures a[k] == b[k] { assert Lookup(a, k) == Lookup(b, k); }
  }

  // ------------------------------------------------------------- the fix loop

  function FixAnswers(missing: map<string, string>, replies: seq<BatchReply>): Answers {
    (b: nat, k: string) => if b < |replies| && k in missing then Answer(replies[b], missing[k], k) else None
  }

  /** The inner loop of `run_fix` over the keys of one batch that came back. */
  method FixChunk(missing: map<string, string>, chunk: seq<string>, reply: BatchReply, start: map<string, string>)
    returns (translations: map<string, string>, failures: nat)
    requires NoDuplicates(chunk) && reply.Parsed? && forall k <- chunk :: k in missing && k !in start
    ensures |translations| + failures == |start| + |chunk|
    ensures forall k: string {:trigger Lookup(translations, k)} ::
      Lookup(translations, k) == if k in chunk then Answer(reply, missing[k], k) else Lookup(start, k)
  {
    hide GuardTranslation;
    translations, failures := start, 0;
    for i := 0 to |chunk|
      invariant |translations| + failures == |start| + i
      invariant forall k: string {:trigger Lookup(translations, k)} ::
        Lookup(translations, k) == if k in chunk[..i] then Answer(reply, missing[k], k) else Lookup(start, k)
    {
      var key := chunk[i];
      assert chunk[..i + 1] == chunk[..i] + [key] && key !in chunk[..i] && key in chunk;
      assert Lookup(translations, key) == None;
      ghost var was := translations;
      var guarded := GuardTranslation(missing[key], if key in reply.replies then reply.replies[key] else NotText);
      if guarded.Some? {
        translations := translations[key := guarded.value];
      } else {
        failures := failures + 1;
      }
      forall k: string
        ensures Lookup(translations, k)
             == if k in chunk[..i + 1] then Answer(reply, missing[k], k) else Lookup(start, k)
      {
        assert k != key ==> Lookup(translations, k) == Lookup(was, k);
      }
    }
    assert chunk[..|chunk|] == chunk;
  }

  /** The loop over `as_completed(futures)` in `run_fix`. */
  method FixBatches(missing: map<string, string>, batches: seq<seq<string>>, replies: seq<BatchReply>, completed: seq<nat>)
    returns (translations: map<string, string>, failures: nat)
    requires |replies| == |batches| && Partition(batches) && KeysOf(batches) == missing.Keys
    requires Completion(completed, |batches|)
    ensures Settled(translations, batches, FixAnswers(missing, replies), completed)
    ensures |translations| + failures == |missing|
  {
    hide Settled, SeenIn, Partition, KeysOf, Answer;
    ghost var answer := FixAnswers(missing, replies);
    NothingSettled(batches, answer);
    translations, failures := map[], 0;
    for c := 0 to |completed|
      invariant Settled(translations, batches, answer, completed[..c])
      invariant |translations| + failures == |SeenIn(batches, completed[..c])|
    {
      var batch := completed[c];
      var chunk := batches[batch];
      ghost var before, start := completed[..c], translations;
      assert completed[..c + 1] == before + [batch] && batch !in before;
      FreshChunk(translations, batches, answer, before, batch);
      if replies[batch].Failed? {
        failures := failures + |chunk|;
        NoAnswers(replies[batch], missing, chunk);
      } else {
        var failed;
        translations, failed := FixChunk(missing, chunk, replies[batch], translations);
        failures := failures + failed;
      }
      SettledNext(start, translations, batches, answer, before, batch);
    }
    assert completed[..|completed|] == completed;
    AllSeen(batches, completed);
    assert |missing| == |missing.Keys|;
  }

  lemma NoAnswers(reply: BatchReply, missing: map<string, string>, chunk: seq<string>)
    requires reply.Failed? && forall k <- chunk :: k in missing
    ensures forall k <- chunk :: Answer(reply, missing[k], k) == None
  {
  }

  // ------------------------------------------------------------ after the write

  /** What is laid over the locale's dictionary. */
  ghost function Payload(verbatim: map<string, Value>, translations: map<string, string>): map<string, Value> {
    verbatim + map k | k in translations :: Str(translations[k])
  }

  lemma StrippedIsNotBlank(s: string)
    requires Strip(s) != ""
    ensures Strip(Strip(s)) != ""
  {
    var t := Strip(s);
    assert t <= StripLeft(s) && !IsSpace(t[0]);
    assert StripLeft(t) == t && !IsSpace(t[|t| - 1]);
    assert StripRight(t) == t;
  }

  lemma AnswersAreNotBlank(batch: BatchReply, source: string, key: string)
    ensures Answer(batch, source, key).Some? ==> Strip(Answer(batch, source, key).value) != ""
  {
    hide Strip, TagsOf, PlaceholdersOf;
    if batch.Parsed? && key in batch.replies && batch.replies[key].Text? {
      if Strip(batch.replies[key].text) != "" { StrippedIsNotBlank(batch.replies[key].text); }
    }
  }

  lemma FlattenedText(v: Value, key: string)
    ensures key in Flatten(v) <==> key in FlattenValues(v, "")
    ensures key in Flatten(v) ==>
      IsLeaf(FlattenValues(v, "")[key]) && Flatten(v)[key] == LeafText(FlattenValues(v, "")[key])
  {
    FlattenedAreLeaves(v, "");
  }

  lemma MissingText(source: Value, locale: Value, key: string)
    ensures key in MissingTexts(source, locale)
       <==> (&& key in FlattenValues(source, "") && FlattenValues(source, "")[key].Str?
             && (key !in FlattenValues(locale, "") || BlankAt(locale, key)))
  {
    FlattenedText(source, key);
    FlattenedText(locale, key);
  }

  ghost predicate BlankAt(v: Value, key: string)
    requires key in FlattenValues(v, "")
  {
    FlattenedAreLeaves(v, "");
    Strip(LeafText(FlattenValues(v, "")[key])) == ""
  }

  /** The leaves of the source that are no texts and that a fix run leaves blank: the locale has the key, with a blank
      text, so it is not copied; or it is copied, but is null and so blank itself. */
  ghost function StaysBlank(source: Value, locale: Value): set<string> {
    var values := FlattenValues(source, "");
    set k | k in values && !values[k].Str? && BlankAt(if k in FlattenValues(locale, "") then locale else source, k)
  }

  /** A number that the locale has as a blank text. */
  lemma BlankNumberStays()
    ensures StaysBlank(Obj([Member("n", Int(1))]), Obj([Member("n", Str(""))])) == {"n"}
  {
    var source, locale := [Member("n", Int(1))], [Member("n", Str(""))];
    assert source[1..] == [] && locale[1..] == [];
    assert FlattenValues(Obj(source), "") == map["n" := Int(1)];
    assert FlattenValues(Obj(locale), "") == map["n" := Str("")];
  }

  /** After a write that is a pointwise override, the gate misses exactly the texts that failed and the other leaves
      that a fix run leaves blank, and finds the same extra keys as before. */
  lemma AfterFix(source: Value, locale: Value, translations: map<string, string>, written: Value)
    requires forall k <- translations :: k in MissingTexts(source, locale) && Strip(translations[k]) != ""
    requires FlattenValues(written, "")
          == FlattenValues(locale, "") + Payload(Verbatim(source, locale), translations)
    ensures MissingTexts(source, written).Keys == MissingTexts(source, locale).Keys - translations.Keys
    ensures Missing(Flatten(source), Flatten(written)).Keys
         == (MissingTexts(source, locale).Keys - translations.Keys) + StaysBlank(source, locale)
    ensures Extra(Flatten(source), Flatten(written)) == Extra(Flatten(source), Flatten(locale))
  {
    hide Missing, StaysBlank, MissingTexts, Extra, Flatten, FlattenValues, Verbatim, Payload, Strip;
    forall k: string
      ensures k in MissingTexts(source, written) <==> k in MissingTexts(source, locale) && k !in translations
    {
      MissingAfter(source, locale, translations, written, k);
    }
    forall k: string
      ensures k in Missing(Flatten(source), Flatten(written))
         <==> (k in MissingTexts(source, locale) && k !in translations) || k in StaysBlank(source, locale)
    {
      GateAfter(source, locale, translations, written, k);
    }
    forall k: string
      ensures k in Extra(Flatten(source), Flatten(written)) <==> k in Extra(Flatten(source), Flatten(locale))
    {
      ExtraAfter(source, locale, translations, written, k);
    }
  }

  lemma MissingAfter(source: Value, locale: Value, translations: map<string, string>, written: Value, k: string)
    requires k in translations ==> k in MissingTexts(source, locale) && Strip(translations[k]) != ""
    requires FlattenValues(written, "")
          == FlattenValues(locale, "") + Payload(Verbatim(source, locale), translations)
    ensures k in MissingTexts(source, written) <==> k in MissingTexts(source, locale) && k !in translations
  {
    MissingText(source, locale, k);
    MissingText(source, written, k);
    hide MissingTexts, FlattenValues, Strip;
  }

  /** A leaf that is no text is in the written dictionary as the locale had it, or else as the source has it. */
  lemma VerbatimAfter(source: Value, locale: Value, translations: map<string, string>, written: Value, k: string)
    requires k in translations ==> k in MissingTexts(source, locale)
    requires FlattenValues(written, "")
          == FlattenValues(locale, "") + Payload(Verbatim(source, locale), translations)
    requires k in FlattenValues(source, "") && !FlattenValues(source, "")[k].Str?
    ensures k in FlattenValues(written, "") && k !in MissingTexts(source, locale)
    ensures FlattenValues(written, "")[k]
         == if k in FlattenValues(locale, "") then FlattenValues(locale, "")[k] else FlattenValues(source, "")[k]
  {
    MissingText(source, locale, k);
    hide MissingTexts, FlattenValues, BlankAt;
  }

  lemma GateAfter(source: Value, locale: Value, translations: map<string, string>, written: Value, k: string)
    requires k in translations ==> k in MissingTexts(source, locale) && Strip(translations[k]) != ""
    requires FlattenValues(written, "")
          == FlattenValues(locale, "") + Payload(Verbatim(source, locale), translations)
    ensures k in Missing(Flatten(source), Flatten(written))
       <==> (k in MissingTexts(source, locale) && k !in translations) || k in StaysBlank(source, locale)
  {
    FlattenedText(source, k);
    FlattenedText(written, k);
    MissingText(source, written, k);
    MissingAfter(source, locale, translations, written, k);
    hide MissingTexts, FlattenValues, Flatten, Strip, Payload, Verbatim;
    if k in FlattenValues(source, "") && !FlattenValues(source, "")[k].Str? {
      VerbatimAfter(source, locale, translations, written, k);
    }
  }

  lemma ExtraAfter(source: Value, locale: Value, translations: map<string, string>, written: Value, k: string)
    requires k in translations ==> k in MissingTexts(source, locale)
    requires FlattenValues(written, "")
          == FlattenValues(locale, "") + Payload(Verbatim(source, locale), translations)
    ensures k in Extra(Flatten(source), Flatten(written)) <==> k in Extra(Flatten(source), Flatten(locale))
  {
    FlattenedText(source, k);
    FlattenedText(locale, k);
    FlattenedText(written, k);
    MissingText(source, locale, k);
    hide MissingTexts, FlattenValues, Strip, Flatten;
  }

  lemma SettledAreMissing(translations: map<string, string>, missing: map<string, string>, batches: seq<seq<string>>,
                          replies: seq<BatchReply>, completed: seq<nat>)
    requires InRange(completed, |batches|) && Settled(translations, batches, FixAnswers(missing, replies), completed)
    ensures forall k <- translations :: k in missing && Strip(translations[k]) != ""
  {
    hide Answer, Strip;
    forall k <- translations ensures k in missing && Strip(translations[k]) != "" {
      var b :| b in completed && k in batches[b];
      assert Lookup(translations, k) == FixAnswers(missing, replies)(b, k);
      AnswersAreNotBlank(replies[b], missing[k], k);
    }
  }

  /** A source dictionary with plain keys and no number-like key below the root is itself a pattern for what is laid
      over a locale. */
  lemma PayloadFits(source: Value, locale: Value, translations: map<string, string>)
    requires source.Obj? && PlainKeys(source) && WordKeysBelow(source) && NoNulls(source)
    requires forall k <- translations :: k in MissingTexts(source, locale)
    ensures Fitting(locale, Payload(Verbatim(source, locale), translations), source)
  {
    var payload := Payload(Verbatim(source, locale), translations);
    forall k <- payload ensures RealLeaf(payload[k]) && Find(source, Split(k, '.')).Some? {
      FlattenedText(source, k);
      MissingText(source, locale, k);
      FlattenRoot(source, k);
    }
    hide PlainKeys, WordKeys, WordKeysBelow, Verbatim, Payload, MissingTexts, FlattenValues;
  }

  lemma TextsAreOffered(source: Value, locale: Value)
    ensures MissingTexts(source, locale).Keys !! StaysBlank(source, locale)
  {
    forall k <- MissingTexts(source, locale) ensures k !in StaysBlank(source, locale) {
      MissingText(source, locale, k);
    }
  }

  /** A fix run from the gate to the gate. Once all batches are settled, in whatever order they completed,
      the write never raises; and when the new keys leave no gap in an array and displace no leaf, the gate
      then misses exactly the keys that failed, as many as were counted, and the leaves that stay blank, and finds the
      same extra keys. The keys that the locale lacks must belong to some dictionary with plain keys and no number-like
      key below the root, the `pattern`. */
  lemma FixThenGate(source: Value, locale: Value, pattern: Value, batches: seq<seq<string>>, replies: seq<BatchReply>,
                    completed: seq<nat>, translations: map<string, string>, failures: nat, order: seq<string>)
    requires locale.Obj? && PlainKeys(locale) && NoNulls(locale)
    requires InRange(completed, |batches|)
    requires Settled(translations, batches, FixAnswers(MissingTexts(source, locale), replies), completed)
    requires |translations| + failures == |MissingTexts(source, locale)|
    requires Fitting(locale, Payload(Verbatim(source, locale), translations), pattern)
    requires Visits(order, Pending(locale, Payload(Verbatim(source, locale), translations)).Keys)
    ensures var payload := Payload(Verbatim(source, locale), translations);
      var written, extra := OverlayTranslations(locale, payload, order), Unflatten(Pending(locale, payload), order);
      && written.Ok? && extra.Ok?
      && (Gapless(Pending(locale, payload).Keys) && Compatible(locale, extra.value) ==>
            && MissingTexts(source, written.value).Keys == MissingTexts(source, locale).Keys - translations.Keys
            && |MissingTexts(source, written.value)| == failures
            && Missing(Flatten(source), Flatten(written.value)).Keys
               == MissingTexts(source, written.value).Keys + StaysBlank(source, locale)
            && |Missing(Flatten(source), Flatten(written.value))| == failures + |StaysBlank(source, locale)|
            && Extra(Flatten(source), Flatten(written.value)) == Extra(Flatten(source), Flatten(locale)))
  {
    var payload := Payload(Verbatim(source, locale), translations);
    hide PlainKeys, WordKeys, WordKeysBelow, Missing, MissingTexts, FlattenValues, Flatten, OverlayTranslations,
      Unflatten, Gapless, Compatible, Pending, Verbatim, Payload, Settled, Extra;
    assert forall k <- payload :: IsLeaf(payload[k]);
    hide Fitting;
    SettledAreMissing(translations, MissingTexts(source, locale), batches, replies, completed);
    OverlayExact(locale, payload, order, pattern);
    var written := OverlayTranslations(locale, payload, order).value;
    if FlattenValues(written, "") == FlattenValues(locale, "") + payload {
      AfterFix(source, locale, translations, written);
      var before, after := MissingTexts(source, locale), MissingTexts(source, written);
      assert translations.Keys <= before.Keys;
      assert |before.Keys - translations.Keys| == |before.Keys| - |translations.Keys|;
      assert |after| == |after.Keys|;
      TextsAreOffered(source, locale);
      var gate, blank := Missing(Flatten(source), Flatten(written)), StaysBlank(source, locale);
      hide StaysBlank;
      assert after.Keys !! blank;
      assert |gate| == |gate.Keys| == |after.Keys| + |blank|;
    }
  }

  // ------------------------------------------------------------------- review

  /** One verdict of the model: whether it says "improved", and the text it proposes. */
  datatype Verdict = Verdict(improved: bool, proposal: Reply)

  datatype Item = Item(source: string, current: string)

  datatype ReviewReply = ReviewFailed | Reviews(verdicts: map<string, Verdict>)

  /** The text that an item of a reviewed batch is changed to. */
  function Improvement(reply: ReviewReply, item: Item, key: string): Option<string> {
    if reply.ReviewFailed? || key !in reply.verdicts || !reply.verdicts[key].improved then None else
      var guarded := GuardTranslation(item.source, reply.verdicts[key].proposal);
      if guarded == Some(item.current) then None else guarded
  }

  /** A text is changed only on the verdict "improved", only to the proposed text, stripped, and only when that differs
      and keeps the tags and placeholders of the source. */
  lemma ImprovedOnly(reply: ReviewReply, item: Item, key: string, text: string)
    ensures Improvement(reply, item, key) == Some(text) <==>
      && reply.Reviews? && key in reply.verdicts && reply.verdicts[key].improved
      && reply.verdicts[key].proposal.Text? && text == Strip(reply.verdicts[key].proposal.text) && text != ""
      && text != item.current
      && multiset(Tags(item.source, 0)) == multiset(Tags(text, 0))
      && multiset(Placeholders(item.source, 0)) == multiset(Placeholders(text, 0))
  {
    if reply.Reviews? && key in reply.verdicts { GuardExact(item.source, reply.verdicts[key].proposal, text); }
    hide GuardTranslation, Tags, Placeholders, Strip;
  }

  function ReviewAnswers(items: map<string, Item>, replies: seq<ReviewReply>): Answers {
    (b: nat, k: string) => if b < |replies| && k in items then Improvement(replies[b], items[k], k) else None
  }

  /** The inner loop of `run_review` over the keys of one batch that came back. */
  method ReviewChunk(items: map<string, Item>, chunk: seq<string>, reply: ReviewReply, start: map<string, string>)
    returns (improvements: map<string, string>, ok: nat)
    requires NoDuplicates(chunk) && reply.Reviews? && forall k <- chunk :: k in items && k !in start
    ensures ok + |improvements| == |start| + |chunk|
    ensures forall k: string {:trigger Lookup(improvements, k)} ::
      Lookup(improvements, k) == if k in chunk then Improvement(reply, items[k], k) else Lookup(start, k)
  {
    hide GuardTranslation;
    improvements, ok := start, 0;
    for i := 0 to |chunk|
      invariant ok + |improvements| == |start| + i
      invariant forall k: string {:trigger Lookup(improvements, k)} ::
        Lookup(improvements, k) == if k in chunk[..i] then Improvement(reply, items[k], k) else Lookup(start, k)
    {
      var key := chunk[i];
      assert chunk[..i + 1] == chunk[..i] + [key] && key !in chunk[..i] && key in chunk;
      assert Lookup(improvements, key) == None;
      ghost var was := improvements;
      if key !in reply.verdicts || !reply.verdicts[key].improved {
        ok := ok + 1;
      } else {
        var guarded := GuardTranslation(items[key].source, reply.verdicts[key].proposal);
        if guarded.None? || guarded.value == items[key].current {
          ok := ok + 1;
        } else {
          improvements := improvements[key := guarded.value];
        }
      }
      forall k: string
        ensures Lookup(improvements, k)
             == if k in chunk[..i + 1] then Improvement(reply, items[k], k) else Lookup(start, k)
      {
        assert k != key ==> Lookup(improvements, k) == Lookup(was, k);
      }
    }
    assert chunk[..|chunk|] == chunk;
  }

  /** The loop over `as_completed(futures)` in `run_review`: every item ends up in exactly one of the three
      counts, and every improvement is a guarded text that differs from the current one. */
  method ReviewBatches(items: map<string, Item>, batches: seq<seq<string>>, replies: seq<ReviewReply>, completed: seq<nat>)
    returns (improvements: map<string, string>, ok: nat, failed: nat)
    requires |replies| == |batches| && Partition(batches) && KeysOf(batches) == items.Keys
    requires Completion(completed, |batches|)
    ensures ok + |improvements| + failed == |items|
    ensures Settled(improvements, batches, ReviewAnswers(items, replies), completed)
  {
    hide Settled, SeenIn, Partition, KeysOf, Improvement;
    ghost var answer := ReviewAnswers(items, replies);
    NothingSettled(batches, answer);
    improvements, ok, failed := map[], 0, 0;
    for c := 0 to |completed|
      invariant Settled(improvements, batches, answer, completed[..c])
      invariant ok + |improvements| + failed == |SeenIn(batches, completed[..c])|
    {
      var batch := completed[c];
      var chunk := batches[batch];
      ghost var before, start := completed[..c], improvements;
      assert completed[..c + 1] == before + [batch] && batch !in before;
      FreshChunk(improvements, batches, answer, before, batch);
      if replies[batch].ReviewFailed? {
        failed := failed + |chunk|;
        NoImprovements(replies[batch], items, chunk);
      } else {
        var fine;
        improvements, fine := ReviewChunk(items, chunk, replies[batch], improvements);
        ok := ok + fine;
      }
      SettledNext(start, improvements, batches, answer, before, batch);
    }
    assert completed[..|completed|] == completed;
    AllSeen(batches, completed);
    assert |items| == |items.Keys|;
  }

  lemma NoImprovements(reply: ReviewReply, items: map<string, Item>, chunk: seq<string>)
    requires reply.ReviewFailed? && forall k <- chunk :: k in items
    ensures forall k <- chunk :: Improvement(reply, items[k], k) == None
  {
  }
}
