/**
 The `/submit` handler: every reviewed text posted back under a `text_<n>`
 field becomes one entry carrying the text, whether its purchase order
 verifies, and a sales-order number.
 */
module Submission {
  import opened PyStr
  import opened PurchaseOrder

  /** One submitted form field. */
  datatype Field = Field(key: string, value: string)

  /** The submitted form, fields in the order they were posted. A key may be
      posted more than once. */
  type Form = seq<Field>

  /** One entry of the success page. */
  datatype Entry = Entry(text: string, valid: bool, so: string)

  predicate HasKey(form: Form, key: string) {
    exists i :: 0 <= i < |form| && form[i].key == key
  }

  // ---------------------------------------------------------------------------
  // The form as a multi-valued dictionary
  // ---------------------------------------------------------------------------

  /** Where `key` is first posted. */
  function FirstIndex(form: Form, key: string): (i: nat)
    requires HasKey(form, key)
    ensures i < |form| && form[i].key == key
    ensures forall j :: 0 <= j < i ==> form[j].key != key
    decreases |form|
  {
    if form[0].key == key then 0
    else
      assert HasKey(form[1..], key) by {
        var j :| 0 <= j < |form| && form[j].key == key;
        assert form[1..][j - 1] == form[j];
      }
      1 + FirstIndex(form[1..], key)
  }

  /** `request.form[key]`: the first value posted under `key`. */
  function Get(form: Form, key: string): string
    requires HasKey(form, key)
  {
    form[FirstIndex(form, key)].value
  }

  /** Iterating over `request.form`: each key once, in the order of its first
      posting. */
  function Keys(form: Form): seq<string>
    decreases |form|
  {
    if |form| == 0 then []
    else
      var earlier := Keys(form[..|form| - 1]);
      var k := form[|form| - 1].key;
      if k in earlier then earlier else earlier + [k]
  }

  /** Posting one more field adds its key at the end, unless it was posted before. */
  lemma KeysAppend(form: Form, f: Field)
    ensures Keys(form + [f]) == if f.key in Keys(form) then Keys(form) else Keys(form) + [f.key]
  {
    assert (form + [f])[..|form|] == form;
  }

  /** The iteration visits exactly the posted keys. */
  lemma {:induction false} KeysIff(form: Form, key: string)
    ensures key in Keys(form) <==> HasKey(form, key)
    decreases |form|
  {
    if |form| > 0 {
      var init := form[..|form| - 1];
      var last := form[|form| - 1];
      assert form == init + [last];
      KeysIff(init, key);
      KeysAppend(init, last);
      if HasKey(form, key) && last.key != key {
        var j :| 0 <= j < |form| && form[j].key == key;
        assert init[j] == form[j];
      }
      if HasKey(init, key) {
        var j :| 0 <= j < |init| && init[j].key == key;
        assert form[j] == init[j];
      }
    }
  }

  /** A posted key is visited once. */
  lemma {:induction false} KeysDistinct(form: Form)
    ensures forall a, b :: 0 <= a < b < |Keys(form)| ==> Keys(form)[a] != Keys(form)[b]
    decreases |form|
  {
    if |form| > 0 {
      var init := form[..|form| - 1];
      var last := form[|form| - 1];
      assert form == init + [last];
      KeysDistinct(init);
      KeysAppend(init, last);
    }
  }

  /** An earlier posting keeps its first position when fields are added. */
  lemma FirstIndexAppend(form: Form, f: Field, key: string)
    requires HasKey(form, key)
    ensures HasKey(form + [f], key)
    ensures FirstIndex(form + [f], key) == FirstIndex(form, key)
  {
    assert forall j :: 0 <= j < |form| ==> (form + [f])[j] == form[j];
  }

  /** Every visited key was posted. */
  lemma KeysPosted(form: Form)
    ensures forall k :: k in Keys(form) ==> HasKey(form, k)
  {
    forall k | k in Keys(form)
      ensures HasKey(form, k)
    {
      KeysIff(form, k);
    }
  }

  /** `keys` are posted keys listed in the order of their first postings. */
  predicate InPostingOrder(form: Form, keys: seq<string>)
    requires forall k :: k in keys ==> HasKey(form, k)
  {
    forall a, b :: 0 <= a < b < |keys| ==> FirstIndex(form, keys[a]) < FirstIndex(form, keys[b])
  }

  /** Keys are visited in the order of their first postings. */
  lemma {:induction false} KeysInOrder(form: Form)
    ensures forall k :: k in Keys(form) ==> HasKey(form, k)
    ensures InPostingOrder(form, Keys(form))
    decreases |form|
  {
    KeysPosted(form);
    if |form| > 0 {
      var init := form[..|form| - 1];
      var last := form[|form| - 1];
      assert form == init + [last];
      KeysInOrder(init);
      forall a, b | 0 <= a < b < |Keys(form)|
        ensures FirstIndex(form, Keys(form)[a]) < FirstIndex(form, Keys(form)[b])
      {
        KeysInOrderStep(init, last, a, b);
      }
    }
  }

  lemma KeysInOrderStep(init: Form, last: Field, a: int, b: int)
    requires forall k :: k in Keys(init) ==> HasKey(init, k)
    requires InPostingOrder(init, Keys(init))
    requires 0 <= a < b < |Keys(init + [last])|
    ensures HasKey(init + [last], Keys(init + [last])[a]) && HasKey(init + [last], Keys(init + [last])[b])
    ensures FirstIndex(init + [last], Keys(init + [last])[a]) < FirstIndex(init + [last], Keys(init + [last])[b])
  {
    var ks := Keys(init);
    KeysAppend(init, last);
    assert a < |ks|;
    FirstIndexAppend(init, last, ks[a]);
    if b < |ks| {
      FirstIndexAppend(init, last, ks[b]);
    } else {
      KeysIff(init, last.key);
      assert (init + [last])[|init|] == last;
    }
  }

  /** A later posting of a key does not change what `request.form[key]` reads. */
  lemma GetAppend(form: Form, f: Field, key: string)
    requires HasKey(form, key)
    ensures HasKey(form + [f], key) && Get(form + [f], key) == Get(form, key)
  {
    FirstIndexAppend(form, f, key);
    assert (form + [f])[FirstIndex(form, key)] == form[FirstIndex(form, key)];
  }

  /** The first posting of a key is what `request.form[key]` reads. */
  lemma GetNew(form: Form, f: Field)
    requires !HasKey(form, f.key)
    ensures HasKey(form + [f], f.key) && Get(form + [f], f.key) == f.value
  {
    assert (form + [f])[|form|] == f;
    assert forall j :: 0 <= j < |form| ==> (form + [f])[j] == form[j];
  }

  // ---------------------------------------------------------------------------
  // The text fields
  // ---------------------------------------------------------------------------

  /** The keys the handler picks up: those starting with "text_". */
  predicate IsTextKey(key: string) {
    StartsWith(key, "text_")
  }

  /** A text key is "text_" followed by anything, the empty rest included. */
  lemma IsTextKeyIff(key: string)
    ensures IsTextKey(key) <==> exists rest :: key == "text_" + rest
  {
    if IsTextKey(key) {
      assert key == "text_" + key[5..];
    }
    if exists rest :: key == "text_" + rest {
      var rest :| key == "text_" + rest;
      assert key[..5] == "text_";
    }
  }

  /** The text keys among `keys`, in order. */
  function TextOnly(keys: seq<string>): seq<string>
    decreases |keys|
  {
    if |keys| == 0 then []
    else
      var earlier := TextOnly(keys[..|keys| - 1]);
      var k := keys[|keys| - 1];
      if IsTextKey(k) then earlier + [k] else earlier
  }

  /** The text keys of the form, in the order the handler meets them. */
  function TextKeys(form: Form): seq<string> {
    TextOnly(Keys(form))
  }

  /** Filtering keeps what passes, in order, and nothing else. */
  lemma {:induction false} TextOnlyIff(keys: seq<string>, k: string)
    ensures k in TextOnly(keys) <==> k in keys && IsTextKey(k)
    decreases |keys|
  {
    if |keys| > 0 {
      var init := keys[..|keys| - 1];
      assert keys == init + [keys[|keys| - 1]];
      TextOnlyIff(init, k);
    }
  }

  /** Filtering a sequence without repeats gives one without repeats. */
  lemma {:induction false} TextOnlyDistinct(keys: seq<string>)
    requires forall a, b :: 0 <= a < b < |keys| ==> keys[a] != keys[b]
    ensures forall a, b :: 0 <= a < b < |TextOnly(keys)| ==> TextOnly(keys)[a] != TextOnly(keys)[b]
    decreases |keys|
  {
    if |keys| > 0 {
      var init := keys[..|keys| - 1];
      var last := keys[|keys| - 1];
      assert keys == init + [last];
      TextOnlyDistinct(init);
      TextOnlyIff(init, last);
    }
  }

  /** Filtering keeps the order: whatever ranks the keys increasingly ranks
      the kept ones increasingly. */
  lemma {:induction false} TextOnlyKeepsOrder(keys: seq<string>, rank: string -> int)
    requires forall a, b :: 0 <= a < b < |keys| ==> rank(keys[a]) < rank(keys[b])
    ensures forall a, b :: 0 <= a < b < |TextOnly(keys)| ==> rank(TextOnly(keys)[a]) < rank(TextOnly(keys)[b])
    decreases |keys|
  {
    if |keys| > 0 {
      var init := keys[..|keys| - 1];
      var last := keys[|keys| - 1];
      assert keys == init + [last];
      TextOnlyKeepsOrder(init, rank);
      var t := TextOnly(init);
      if IsTextKey(last) {
        forall a | 0 <= a < |t|
          ensures rank(t[a]) < rank(last)
        {
          TextOnlyIff(init, t[a]);
          var j :| 0 <= j < |init| && init[j] == t[a];
          assert keys[j] == t[a];
        }
        assert TextOnly(keys) == t + [last];
      }
    }
  }

  lemma TextOnlyPosted(form: Form, keys: seq<string>)
    requires forall k :: k in keys ==> HasKey(form, k)
    ensures forall k :: k in TextOnly(keys) ==> HasKey(form, k)
  {
    forall k | k in TextOnly(keys)
      ensures HasKey(form, k)
    {
      TextOnlyIff(keys, k);
    }
  }

  /** The handler meets the text keys in the order of their first postings. */
  lemma TextKeysInOrder(form: Form)
    ensures forall k :: k in TextKeys(form) ==> HasKey(form, k)
    ensures InPostingOrder(form, TextKeys(form))
  {
    KeysInOrder(form);
    TextOnlyPosted(form, Keys(form));
    var rank := k => if HasKey(form, k) then FirstIndex(form, k) else -1;
    var ks := Keys(form);
    assert forall a, b :: 0 <= a < b < |ks| ==> rank(ks[a]) < rank(ks[b]) by {
      forall a, b | 0 <= a < b < |ks|
        ensures rank(ks[a]) < rank(ks[b])
      {
        assert ks[a] in ks && ks[b] in ks;
      }
    }
    TextOnlyKeepsOrder(ks, rank);
    var ts := TextKeys(form);
    forall a, b | 0 <= a < b < |ts|
      ensures FirstIndex(form, ts[a]) < FirstIndex(form, ts[b])
    {
      assert ts[a] in ts && ts[b] in ts;
      assert rank(ts[a]) < rank(ts[b]);
    }
  }

  /** The form's text keys are exactly its posted "text_" keys, each once. */
  lemma TextKeysIff(form: Form, key: string)
    ensures key in TextKeys(form) <==> IsTextKey(key) && HasKey(form, key)
    ensures forall a, b :: 0 <= a < b < |TextKeys(form)| ==> TextKeys(form)[a] != TextKeys(form)[b]
  {
    TextOnlyIff(Keys(form), key);
    KeysIff(form, key);
    KeysDistinct(form);
    TextOnlyDistinct(Keys(form));
  }

  /** Posting one more field: a new "text_" key is picked up last; any other
      field — a repeated key or a key without the prefix — changes nothing. */
  lemma TextKeysAppend(form: Form, f: Field)
    ensures TextKeys(form + [f]) ==
      if IsTextKey(f.key) && !HasKey(form, f.key) then TextKeys(form) + [f.key] else TextKeys(form)
  {
    KeysAppend(form, f);
    KeysIff(form, f.key);
    var ks := Keys(form);
    if f.key !in ks {
      assert (ks + [f.key])[..|ks|] == ks;
    }
  }

  // ---------------------------------------------------------------------------
  // The handler
  // ---------------------------------------------------------------------------

  /** `'SO-' + u[:8]`: Python's slice takes at most eight characters. */
  function SoNumber(u: string): (so: string)
    ensures |so| == 3 + (if |u| < 8 then |u| else 8)
    ensures so[..3] == "SO-" && so[3..] == u[..|so| - 3]
  {
    "SO-" + u[..if |u| < 8 then |u| else 8]
  }

  predicate IsLowerHex(c: char) {
    '0' <= c <= '9' || 'a' <= c <= 'f'
  }

  /** The text form of a UUID as `str(uuid.uuid4())` writes it: five groups of
      8, 4, 4, 4 and 12 lower-case hex digits, joined by hyphens. */
  predicate IsUuidText(u: string) {
    && |u| == 36
    && (forall i :: 0 <= i < 36 ==> (i == 8 || i == 13 || i == 18 || i == 23) == (u[i] == '-'))
    && (forall i :: 0 <= i < 36 && u[i] != '-' ==> IsLowerHex(u[i]))
  }

  /** A sales-order number is "SO-" and the first group of the UUID: eleven
      characters, the last eight hex digits. */
  lemma SoNumberOfUuid(u: string)
    requires IsUuidText(u)
    ensures |SoNumber(u)| == 11 && SoNumber(u)[..3] == "SO-"
    ensures forall i :: 3 <= i < 11 ==> IsLowerHex(SoNumber(u)[i])
    ensures SoNumber(u)[3..] == u[..8]
  {
    var so := SoNumber(u);
    forall i | 3 <= i < 11
      ensures IsLowerHex(so[i])
    {
      assert so[i] == so[3..][i - 3] == u[i - 3];
      assert u[i - 3] != '-';
    }
  }

  /** `key.split('_')[1]` never fails on a "text_" key: it is the part of the
      key after the prefix, up to the next underscore. */
  lemma TextKeyIndex(key: string)
    requires IsTextKey(key)
    ensures |Split(key, '_')| > 1
    ensures Split(key, '_')[1] == Split(key[5..], '_')[0]
    ensures '_' !in Split(key, '_')[1]
  {
    assert key == "text" + ['_'] + key[5..];
    SplitOfField("text", key[5..], '_');
    SplitNoSep(key, '_');
  }

  /** The entry the handler makes for one text field. */
  function MakeEntry(text: string, uuid: string): Entry {
    Entry(text, VerifyPo(text), SoNumber(uuid))
  }

  /** `entries` are the entries for the text keys `ks`, in order, the n-th
      drawing the n-th UUID. */
  predicate EntriesFor(form: Form, ks: seq<string>, uuids: nat -> string, entries: seq<Entry>) {
    && |entries| == |ks|
    && forall n :: 0 <= n < |entries| ==>
         HasKey(form, ks[n]) && entries[n] == MakeEntry(Get(form, ks[n]), uuids(n))
  }

  lemma EntriesForAppend(form: Form, ks: seq<string>, uuids: nat -> string, entries: seq<Entry>, k: string)
    requires EntriesFor(form, ks, uuids, entries) && HasKey(form, k)
    ensures EntriesFor(form, ks + [k], uuids, entries + [MakeEntry(Get(form, k), uuids(|entries|))])
  {
    var ks' := ks + [k];
    assert forall n :: 0 <= n < |ks| ==> ks'[n] == ks[n];
  }

  /** One more key extends the filtered keys by that key, if it passes. */
  lemma TextOnlySnoc(keys: seq<string>, i: int)
    requires 0 <= i < |keys|
    ensures TextOnly(keys[..i + 1]) == if IsTextKey(keys[i]) then TextOnly(keys[..i]) + [keys[i]] else TextOnly(keys[..i])
  {
    assert keys[..i + 1][..i] == keys[..i];
  }

  /** `submit()`: for each key of the form that starts with "text_", verify
      its text and draw a sales-order number. `uuids(n)` is the text of the
      n-th UUID drawn, the only draws being one per entry. */
  method Submit(form: Form, uuids: nat -> string) returns (entries: seq<Entry>)
    ensures |entries| == |TextKeys(form)|
    ensures forall n :: 0 <= n < |entries| ==>
      && HasKey(form, TextKeys(form)[n])
      && entries[n].text == Get(form, TextKeys(form)[n])
      && entries[n].valid == VerifyPo(entries[n].text)
      && entries[n].so == SoNumber(uuids(n))
  {
    var keys := Keys(form);
    KeysPosted(form);
    entries := [];
    for i := 0 to |keys|
      invariant EntriesFor(form, TextOnly(keys[..i]), uuids, entries)
    {
      var key := keys[i];
      TextOnlySnoc(keys, i);
      if IsTextKey(key) {
        TextKeyIndex(key);
        var idx := Split(key, '_')[1];
        var text := Get(form, key);
        var valid := VerifyPo(text);
        var so := SoNumber(uuids(|entries|));
        EntriesForAppend(form, TextOnly(keys[..i]), uuids, entries, key);
        entries := entries + [Entry(text, valid, so)];
      }
    }
    assert keys[..|keys|] == keys;
  }

  /** Posting a field without the "text_" prefix, or one more value under a
      key already posted, leaves the text keys and the texts they read
      unchanged — and with them, by `Submit`'s contract, the entries. */
  lemma SubmitDependsOnTextFields(form: Form, f: Field)
    requires !IsTextKey(f.key) || HasKey(form, f.key)
    ensures TextKeys(form + [f]) == TextKeys(form)
    ensures forall k :: k in TextKeys(form) ==> HasKey(form, k) && Get(form + [f], k) == Get(form, k)
  {
    TextKeysAppend(form, f);
    forall k | k in TextKeys(form)
      ensures HasKey(form, k) && Get(form + [f], k) == Get(form, k)
    {
      TextKeysIff(form, k);
      GetAppend(form, f, k);
    }
  }

  /** A new "text_" field adds one text key at the end, reading its own value:
      by `Submit`'s contract, one more entry at the end. */
  lemma SubmitNewTextField(form: Form, f: Field)
    requires IsTextKey(f.key) && !HasKey(form, f.key)
    ensures TextKeys(form + [f]) == TextKeys(form) + [f.key]
    ensures Get(form + [f], f.key) == f.value
  {
    TextKeysAppend(form, f);
    GetNew(form, f);
  }
}
