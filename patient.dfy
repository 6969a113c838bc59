/**
 * The patient client: the patient's own record (`records`, one object holding
 * the four control keys and a bucket per date key), the entry form with its
 * custom fields, adding an entry, removing one after a confirmation, the
 * restriction sentence, the newest-first view and the background refresh.
 * The clock, the dialog's answer and the backend's replies are parameters;
 * what the client sends is logged in `sent`.
 */
module PatientClient {
  import opened Wrappers
  import opened JsText
  import opened Records
  import opened Aggregate
  import opened Ordering
  import Validator
  import Monitor

  // ---------------------------------------------------------------- initRecords

  /** `num[i]` in a template string: a missing part prints as `undefined`. */
  function Part(num: seq<string>, i: nat): string {
    if i < |num| then num[i] else "undefined"
  }

  /** `${num[1]}/${num[2]}` with `num = k.split("_")`. */
  function RecordDateOf(k: string): string {
    var num := Split(k, '_');
    Part(num, 1) + "/" + Part(num, 2)
  }

  /** The bucket `initRecords(k)` stores: no entries, zero sums, weight `"NaN"`. */
  function FreshBucket(k: string): (b: Bucket)
    ensures Consistent(b) && NonNegative(b) && b.count == |b.data| == 0 && b.weight == "NaN"
  {
    Bucket([], 0, RecordDateOf(k), 0, 0, 0, 0, "NaN")
  }

  /** The record date of a key the client writes is the month, unpadded, and the day, padded. */
  lemma RecordDateOfKey(year: nat, month: nat, day: nat)
    ensures RecordDateOf(DateKey(year, month, day)) == NatToString(month) + "/" + Pad2(day)
  {
    var y, m, d := NatToString(year), NatToString(month), Pad2(day);
    assert '_' !in d by {
      if day < 100 { Pad2Value(day); } else { assert AllDigits(d); }
      DigitsHaveNo(d, '_');
    }
    DigitsHaveNo(y, '_');
    DigitsHaveNo(m, '_');
    assert DateKey(year, month, day) == y + ['_'] + m + ['_'] + d;
    Validator.SplitThree(y, m, d, '_');
  }

  /** The bucket started for today's key carries a record date the backend reads back as today. */
  lemma FreshBucketDateParses(today: Validator.Date)
    requires Validator.ValidDate(today) && today.year >= 0 && today.month >= 0 && today.day >= 0
    ensures Validator.ParseRecordDate(FreshBucket(DateKey(today.year, today.month, today.day)).recordDate, today) == Some(today)
  {
    RecordDateOfKey(today.year, today.month, today.day);
    Validator.RecordDateParses(today.month, today.day, today);
  }

  // ---------------------------------------------------------------- handleCustomInput

  /** An amount select: a number, or `"custom"`, which takes the amount from the custom field. */
  datatype Choice = Amount(n: int) | Custom

  /** One field of `handleCustomInput`: a custom choice takes `parseInt` of its text, which must be a number not below 0. */
  function Accepted(c: Choice, text: string): Option<int> {
    match c
    case Amount(n) => Some(n)
    case Custom =>
      match ParseInt(text)
      case None => None
      case Some(v) => if v < 0 then None else Some(v)
  }

  /** A custom field holding a decimal numeral is accepted with its value. */
  lemma CustomAcceptsNumeral(n: nat)
    ensures Accepted(Custom, NatToString(n)) == Some(n)
  {
    ParseIntOfDecimal(n);
  }

  /** A custom field holding a negative numeral, or only white space, is refused. */
  lemma CustomRejects(n: nat, blank: string)
    requires n > 0 && forall i :: 0 <= i < |blank| ==> IsSpace(blank[i])
    ensures Accepted(Custom, "-" + NatToString(n)).None?
    ensures Accepted(Custom, blank).None?
  {
    var s := NatToString(n);
    var t := "-" + s;
    assert TrimStart(t) == t;
    assert SplitSign(t) == (true, s);
    NatToStringValue(n);
    DigitsUnsigned(s);
    DigitPrefixWhole(s, 10);
    assert ParseIntDigits(s) == Some(n);
    TrimShape(blank);
    TrimStartShape(blank);
  }

  /** The entry form: the three choices, the defecation count and the three custom texts. */
  datatype Form = Form(food: Choice, water: Choice, urination: Choice, defecation: int,
                       customFood: string, customWater: string, customUrination: string)
  {
    /** Every custom choice is accepted. */
    predicate Accepts() {
      Accepted(food, customFood).Some? && Accepted(water, customWater).Some? && Accepted(urination, customUrination).Some?
    }

    /** The entry `addData` builds from the accepted amounts at the minute `time`. */
    function EntryAt(time: string): Entry
      requires Accepts()
    {
      Entry(time, Accepted(food, customFood).value, Accepted(water, customWater).value,
        Accepted(urination, customUrination).value, defecation)
    }
  }

  /** The form after a submitted entry: every choice back to 0 and the texts cleared. */
  const ClearedForm := Form(Amount(0), Amount(0), Amount(0), 0, "", "", "")

  /** The text a field keeps once its choice is converted: cleared when it was a custom choice. */
  function SettledText(c: Choice, text: string): string {
    if c.Custom? then "" else text
  }

  /**
   * `handleCustomInput` on the form: food, water and urination in that order
   * take their accepted amounts, and the first field that is refused stops the
   * conversion with itself and the fields after it unchanged.
   */
  function AfterCustomInput(f: Form): Form {
    var food, water, urination := Accepted(f.food, f.customFood), Accepted(f.water, f.customWater), Accepted(f.urination, f.customUrination);
    if food.None? then f
    else
      var f1 := f.(food := Amount(food.value), customFood := SettledText(f.food, f.customFood));
      if water.None? then f1
      else
        var f2 := f1.(water := Amount(water.value), customWater := SettledText(f.water, f.customWater));
        if urination.None? then f2
        else f2.(urination := Amount(urination.value), customUrination := SettledText(f.urination, f.customUrination))
  }

  /**
   * A form is accepted exactly when it is accepted after the conversion; then
   * every choice is an amount and the entry is the one the form stood for.
   * Converting twice is converting once: a refused form can be submitted again
   * with nothing lost.
   */
  lemma AfterCustomInputProperties(f: Form, time: string)
    ensures AfterCustomInput(f).Accepts() <==> f.Accepts()
    ensures f.Accepts() ==>
      var g := AfterCustomInput(f);
      && g.food.Amount? && g.water.Amount? && g.urination.Amount?
      && g.EntryAt(time) == f.EntryAt(time)
      && g.EntryAt(time) == Entry(time, g.food.n, g.water.n, g.urination.n, g.defecation)
    ensures AfterCustomInput(AfterCustomInput(f)) == AfterCustomInput(f)
  {
  }

  // ---------------------------------------------------------------- processRestrictionText

  /** Which of the three opening phrases the sentence has; `NoScope` when neither box is checked. */
  datatype Scope = FoodAndWaterScope | FoodScope | WaterScope | NoScope

  /** The restriction sentence: the phrase of its scope in the chosen language, the limit, then the unit. */
  datatype Sentence = Sentence(scope: Scope, limit: string)

  /** An element of `Array.prototype.join`: `undefined` and `null` print as nothing. */
  function JoinText(v: Option<Value>): string {
    match v
    case None => ""
    case Some(NullV) => ""
    case Some(_) => JsString(v)
  }

  /**
   * The sentence `processRestrictionText` builds from a record, or `None` when
   * `limitAmount` converts to NaN or is blank, in which case the sentence
   * shown before stays.
   */
  function Restriction(o: Obj): Option<Sentence> {
    var v := o.Get(LimitAmountKey);
    if ToNumber(v).NaN? || Trim(JsString(v)) == [] then None
    else
      var food, water := Truthy(o.Get(FoodCheckboxKey)), Truthy(o.Get(WaterCheckboxKey));
      var scope := if food && water then FoodAndWaterScope else if food then FoodScope else if water then WaterScope else NoScope;
      Some(Sentence(scope, JoinText(v)))
  }

  /** The monitor's note for the same scope and limit. */
  function MonitorView(s: Option<Sentence>): Monitor.MonitorNote {
    match s
    case None => Monitor.NoNote
    case Some(Sentence(FoodAndWaterScope, limit)) => Monitor.FoodAndWaterNote(limit)
    case Some(Sentence(FoodScope, limit)) => Monitor.FoodNote(limit)
    case Some(Sentence(WaterScope, limit)) => Monitor.WaterNote(limit)
    case Some(Sentence(NoScope, _)) => Monitor.Unset
  }

  /**
   * For a limit stored as a string the two clients agree: the patient shows a
   * sentence exactly when the monitor shows a note, with the same scope and
   * the same limit text, and no box checked is the monitor's `undefined`.
   */
  lemma RestrictionAgreesWithMonitor(o: Obj, s: string)
    requires o.Get(LimitAmountKey) == Some(StrV(s))
    ensures Monitor.RestrictionNote(o) == MonitorView(Restriction(o))
  {
    assert Monitor.LimitText(o) == Trim(s);
    assert IsNaNString(Trim(s)) == StringToNumber(s).NaN? by {
      TrimIdempotent(s);
      assert StringToNumber(Trim(s)) == StringToNumber(s);
    }
    if StringToNumber(s).NaN? || Trim(s) == [] {
      HiddenLimit(o, s);
    } else {
      ShownLimit(o, s);
    }
  }

  lemma HiddenLimit(o: Obj, s: string)
    requires o.Get(LimitAmountKey) == Some(StrV(s)) && Monitor.LimitText(o) == Trim(s)
    requires StringToNumber(s).NaN? || Trim(s) == []
    requires IsNaNString(Trim(s)) == StringToNumber(s).NaN?
    ensures Restriction(o) == None && Monitor.RestrictionNote(o) == Monitor.NoNote
  {
  }

  lemma ShownLimit(o: Obj, s: string)
    requires o.Get(LimitAmountKey) == Some(StrV(s)) && Monitor.LimitText(o) == Trim(s)
    requires !StringToNumber(s).NaN? && Trim(s) != []
    requires IsNaNString(Trim(s)) == StringToNumber(s).NaN?
    ensures Monitor.RestrictionNote(o) == MonitorView(Restriction(o))
  {
    var food, water := Truthy(o.Get(FoodCheckboxKey)), Truthy(o.Get(WaterCheckboxKey));
    var scope := if food && water then FoodAndWaterScope else if food then FoodScope else if water then WaterScope else NoScope;
    var r := Restriction(o);
    assert r == Some(Sentence(scope, s)) by {
      assert ToNumber(o.Get(LimitAmountKey)) == StringToNumber(s);
      assert JoinText(o.Get(LimitAmountKey)) == s;
    }
    var note := Monitor.RestrictionNote(o);
    assert note == ShownNote(food, water, s) by {
      var limit := Monitor.LimitText(o);
      assert !(IsNaNString(limit) || limit == []);
      assert JsString(o.Get("limitAmount")) == s;
      assert Monitor.FoodBox(o) == food && Monitor.WaterBox(o) == water;
    }
    ViewOfScope(food, water, s);
  }

  lemma ViewOfScope(food: bool, water: bool, limit: string)
    ensures var scope := if food && water then FoodAndWaterScope else if food then FoodScope else if water then WaterScope else NoScope;
      MonitorView(Some(Sentence(scope, limit))) == ShownNote(food, water, limit)
  {
  }

  /** The monitor's note for a limit that is shown, under the boxes that are checked. */
  function ShownNote(food: bool, water: bool, limit: string): Monitor.MonitorNote {
    if food && water then Monitor.FoodAndWaterNote(limit)
    else if food then Monitor.FoodNote(limit)
    else if water then Monitor.WaterNote(limit)
    else Monitor.Unset
  }

  /** A limit that is `true` is shown by the patient as the text `true`, while the monitor shows no note. */
  lemma TrueLimitShownOnlyToPatient(o: Obj)
    requires o.Get(LimitAmountKey) == Some(BoolV(true)) && Truthy(o.Get(FoodCheckboxKey))
    ensures Restriction(o).Some? && Restriction(o).value.limit == "true"
    ensures Monitor.RestrictionNote(o) == Monitor.NoNote
  {
    var t := "true";
    assert Trim(t) == t by {
      assert TrimStart(t) == t;
      assert TrimEnd(t) == t;
    }
    assert !HasRadixPrefix(t) && SplitSign(t) == (false, t) && t != "Infinity";
    assert ExponentIndex(t) == Some(3);
    assert Mantissa(t[..3]).None? by {
      assert IndexOf(t[..3], '.').None?;
    }
  }

  // ---------------------------------------------------------------- reversedRecord

  /** The newest-first view: the keys other than the control keys, last inserted first, each with its value. */
  function NewestFirst(o: Obj): Obj {
    Obj(RecordKeys(Reverse(o.keys)), map k | k in o.vals && !IsControlKey(k) :: o.vals[k])
  }

  lemma {:induction false} RecordKeysConcat(a: seq<string>, b: seq<string>)
    ensures RecordKeys(a + b) == RecordKeys(a) + RecordKeys(b)
  {
    if a != [] {
      assert (a + b)[0] == a[0] && (a + b)[1..] == a[1..] + b;
      RecordKeysConcat(a[1..], b);
      if IsControlKey(a[0]) {
        assert RecordKeys(a) == RecordKeys(a[1..]);
      } else {
        assert RecordKeys(a) == [a[0]] + RecordKeys(a[1..]);
      }
    } else {
      assert a + b == b;
    }
  }

  /** Filtering the reversed keys is reversing the filtered keys. */
  lemma {:induction false} RecordKeysReverse(keys: seq<string>)
    ensures RecordKeys(Reverse(keys)) == Reverse(RecordKeys(keys))
  {
    if keys != [] {
      RecordKeysReverse(keys[1..]);
      RecordKeysConcat(Reverse(keys[1..]), [keys[0]]);
      assert RecordKeys([keys[0]]) == if IsControlKey(keys[0]) then [] else [keys[0]];
      if !IsControlKey(keys[0]) {
        var r := RecordKeys(keys);
        assert r == [keys[0]] + RecordKeys(keys[1..]);
        assert r[1..] == RecordKeys(keys[1..]);
      }
    }
  }

  /**
   * `reversedRecord` is a well-formed object whose keys are the record's date
   * keys in reverse insertion order, each holding the record's value, and
   * which holds no control key.
   */
  lemma NewestFirstProperties(o: Obj)
    requires o.WF()
    ensures var r := NewestFirst(o);
      && r.WF()
      && r.keys == Reverse(RecordKeys(o.keys))
      && (forall k :: r.Get(k).Some? <==> o.Get(k).Some? && !IsControlKey(k))
      && (forall k :: r.Get(k).Some? ==> r.Get(k) == o.Get(k))
  {
    NewestFirstKeys(o);
  }

  lemma NewestFirstKeys(o: Obj)
    requires o.WF()
    ensures var ks := NewestFirst(o).keys;
      && ks == Reverse(RecordKeys(o.keys))
      && Distinct(ks)
      && forall k :: k in ks <==> k in o.keys && !IsControlKey(k)
  {
    var rev := Reverse(o.keys);
    assert Distinct(RecordKeys(rev)) by {
      assert Distinct(o.keys);
      ReverseDistinct(o.keys);
      Monitor.RecordKeysDistinct(rev);
    }
    assert forall k :: k in rev <==> k in o.keys by {
      ReverseMembers(o.keys);
    }
    RecordKeysReverse(o.keys);
  }

  /** After `j` steps of the walk over `ks`: the non-control keys of `ks[..j]` in order, each with its value in `o`. */
  ghost predicate Walked(o: Obj, ks: seq<string>, j: nat, r: Obj)
    requires j <= |ks|
  {
    && r.keys == RecordKeys(ks[..j])
    && (forall k :: k in r.vals <==> k in r.keys)
    && (forall k :: k in r.vals ==> k in o.vals && r.vals[k] == o.vals[k])
  }

  lemma DistinctPrefix(ks: seq<string>, j: nat)
    requires Distinct(ks) && j < |ks|
    ensures ks[j] !in ks[..j]
  {
    forall i | 0 <= i < j
      ensures ks[..j][i] != ks[j]
    {
      assert ks[..j][i] == ks[i];
    }
  }

  /** A control key is passed over. */
  lemma WalkSkip(o: Obj, ks: seq<string>, j: nat, r: Obj)
    requires j < |ks| && IsControlKey(ks[j]) && Walked(o, ks, j, r)
    ensures Walked(o, ks, j + 1, r)
  {
    assert ks[..j + 1] == ks[..j] + [ks[j]];
    RecordKeysConcat(ks[..j], [ks[j]]);
  }

  /** Any other key is appended with its value. */
  lemma WalkTake(o: Obj, ks: seq<string>, j: nat, r: Obj)
    requires j < |ks| && ks[j] in o.vals && ks[j] !in ks[..j] && !IsControlKey(ks[j])
    requires Walked(o, ks, j, r)
    ensures Walked(o, ks, j + 1, r.Put(ks[j], o.vals[ks[j]]))
  {
    var k := ks[j];
    var r' := r.Put(k, o.vals[k]);
    assert r'.keys == RecordKeys(ks[..j + 1]) by {
      assert ks[..j + 1] == ks[..j] + [k];
      RecordKeysConcat(ks[..j], [k]);
    }
    assert forall x :: x in r'.vals <==> x in r'.keys;
    assert forall x :: x in r'.vals ==> x in o.vals && r'.vals[x] == o.vals[x];
  }

  lemma WalkDone(o: Obj, r: Obj)
    requires forall k :: k in o.keys <==> k in o.vals
    requires Walked(o, Reverse(o.keys), |o.keys|, r)
    ensures r == NewestFirst(o)
  {
    var ks := Reverse(o.keys);
    assert ks[..|ks|] == ks;
    WalkedValues(o, r);
  }

  lemma WalkedValues(o: Obj, r: Obj)
    requires forall k :: k in o.keys <==> k in o.vals
    requires r.keys == RecordKeys(Reverse(o.keys))
    requires forall k :: k in r.vals <==> k in r.keys
    requires forall k :: k in r.vals ==> k in o.vals && r.vals[k] == o.vals[k]
    ensures r.vals == NewestFirst(o).vals
  {
    ReverseMembers(o.keys);
    assert r.vals.Keys == NewestFirst(o).vals.Keys;
  }

  // ---------------------------------------------------------------- adding an entry

  /** The `for (const dietaryItem of this.dietaryItems)` loop: every amount of the last entry grows by the new one. */
  method MergeEntry(last: Entry, item: Entry) returns (e: Entry)
    ensures e == Plus(last, item)
  {
    e := last;
    for j := 0 to |Fields|
      invariant e.time == last.time
      invariant forall i :: 0 <= i < j ==> e.Get(Fields[i]) == last.Get(Fields[i]) + item.Get(Fields[i])
      invariant forall i :: j <= i < |Fields| ==> e.Get(Fields[i]) == last.Get(Fields[i])
    {
      var f := Fields[j];
      e := e.Set(f, e.Get(f) + item.Get(f));
    }
    assert e.Get(Fields[0]) == last.food + item.food && e.Get(Fields[1]) == last.water + item.water;
    assert e.Get(Fields[2]) == last.urination + item.urination && e.Get(Fields[3]) == last.defecation + item.defecation;
  }

  /**
   * The entry part of `addData` on a bucket: the last entry is popped and
   * pushed back, merged with the new entry when both have the same time and
   * otherwise followed by it; `count` becomes the number of entries and each
   * sum grows by the new amount.
   */
  method AppendEntry(b: Bucket, item: Entry) returns (r: Bucket)
    ensures r == ClientAdd(b, item)
  {
    var data := b.data;
    if data != [] {
      var last := data[|data| - 1];
      data := data[..|data| - 1];
      if last.time == item.time {
        last := MergeEntry(last, item);
        data := data + [last];
      } else {
        data := data + [last];
        data := data + [item];
      }
    } else {
      data := data + [item];
    }
    r := b.(data := data, count := |data|);
    r := r.(foodSum := r.foodSum + item.food, waterSum := r.waterSum + item.water);
    r := r.(urinationSum := r.urinationSum + item.urination, defecationSum := r.defecationSum + item.defecation);
  }

  /** The wall clock `addData` reads. */
  datatype Clock = Clock(year: nat, month: nat, day: nat, hour: nat, minute: nat)

  /** Some amount is not zero: `inputFood || inputWater || inputUrination || inputDefecation`. */
  predicate AnyAmount(e: Entry) {
    e.food != 0 || e.water != 0 || e.urination != 0 || e.defecation != 0
  }

  /** The bucket an add starts from: the one stored under `k`, or a fresh one when the value there is falsy. */
  function AddBase(stored: Option<Value>, k: string): Bucket {
    if stored.Some? && stored.value.BucketV? then stored.value.bucket else FreshBucket(k)
  }

  /** The record after `e` is added to the bucket under `k`, started afresh when the value there is falsy. */
  function AfterAdd(records: Obj, k: string, e: Entry): Obj {
    records.Put(k, BucketV(ClientAdd(AddBase(records.Get(k), k), e)))
  }

  /** An add goes through unless a truthy value that is not a record sits under today's key, which makes `pop` throw. */
  predicate AddReaches(stored: Option<Value>) {
    !Truthy(stored) || stored.value.BucketV?
  }

  /** Every entry the patient adds keeps a consistent, non-negative bucket so, as long as its amounts are not negative. */
  lemma AddKeepsBucketValid(stored: Option<Value>, k: string, item: Entry)
    requires stored.Some? && stored.value.BucketV? ==> Consistent(stored.value.bucket) && NonNegative(stored.value.bucket)
    requires forall f :: item.Get(f) >= 0
    ensures var r := ClientAdd(AddBase(stored, k), item);
      Consistent(r) && NonNegative(r) && r.count == |r.data|
  {
    var b := AddBase(stored, k);
    ClientAddConsistent(b, item);
    var r := ClientAdd(b, item);
    CoalescedShape(b.data, item);
    forall i | 0 <= i < |r.data| ensures forall f :: r.data[i].Get(f) >= 0 {
      if i < |b.data| - 1 || (!SameMinute(b.data, item) && i < |b.data|) {
        assert r.data[i] == b.data[i];
      }
    }
    forall f ensures r.Sum(f) >= 0 {
      TotalNonNegative(r.data, f);
    }
  }

  // ---------------------------------------------------------------- the client

  /** A `FETCH_RECORD` reply: the message and, on success, `account_records`. */
  datatype RecordReply = RecordReply(message: Message, records: Option<Obj>)

  class PatientApp {
    var account: string
    var password: string
    var authenticated: bool
    var records: Obj
    /** `restrictionText`; `None` is the initial empty text. */
    var restriction: Option<Sentence>
    var inputFood: Choice
    var inputWater: Choice
    var inputUrination: Choice
    var inputDefecation: int
    var customInputFood: string
    var customInputWater: string
    var customInputUrination: string
    var confirming: bool
    var removingRecord: bool
    var sent: seq<Request>

    /** `records` is a JavaScript object: distinct keys, each with a value. */
    predicate Valid()
      reads this
    {
      records.WF()
    }

    constructor (account: string, password: string)
      ensures Valid()
      ensures this.account == account && this.password == password && !authenticated && records == Empty && restriction == None
      ensures Inputs() == ClearedForm
      ensures !confirming && !removingRecord && sent == []
    {
      this.account := account;
      this.password := password;
      authenticated := false;
      records := Empty;
      restriction := None;
      inputFood, inputWater, inputUrination, inputDefecation := Amount(0), Amount(0), Amount(0), 0;
      customInputFood, customInputWater, customInputUrination := "", "", "";
      confirming := false;
      removingRecord := false;
      sent := [];
    }

    /** `initRecords(k)`: a fresh bucket under `k`, in place when `k` is already a key, otherwise appended. */
    method InitRecords(k: string)
      requires Valid()
      modifies this`records
      ensures Valid()
      ensures records == old(records).Put(k, BucketV(FreshBucket(k)))
    {
      records := records.Put(k, BucketV(FreshBucket(k)));
    }

    /** The form's fields as one value. */
    function Inputs(): Form
      reads this
    {
      Form(inputFood, inputWater, inputUrination, inputDefecation, customInputFood, customInputWater, customInputUrination)
    }

    /**
     * `handleCustomInput`: food, water and urination in that order; a custom
     * choice whose text is not accepted stops the check with `false`, the
     * fields before it already converted and their texts cleared.
     */
    method HandleCustomInput() returns (ok: bool)
      modifies this`inputFood, this`inputWater, this`inputUrination,
        this`customInputFood, this`customInputWater, this`customInputUrination
      ensures ok <==> old(Inputs()).Accepts()
      ensures Inputs() == AfterCustomInput(old(Inputs()))
    {
      var food, water, urination: Choice;
      var foodText, waterText, urinationText: string;
      ok, food, foodText := Settle(inputFood, customInputFood);
      if !ok { return; }
      inputFood, customInputFood := food, foodText;
      ok, water, waterText := Settle(inputWater, customInputWater);
      if !ok { return; }
      inputWater, customInputWater := water, waterText;
      ok, urination, urinationText := Settle(inputUrination, customInputUrination);
      if !ok { return; }
      inputUrination, customInputUrination := urination, urinationText;
    }

    /** One field of `handleCustomInput`: a custom choice is replaced by `parseInt` of its text, which is then cleared. */
    static method Settle(c: Choice, text: string) returns (ok: bool, c': Choice, text': string)
      ensures ok <==> Accepted(c, text).Some?
      ensures ok ==> c' == Amount(Accepted(c, text).value) && text' == SettledText(c, text)
    {
      ok, c', text' := true, c, text;
      if c.Custom? {
        var v := ParseInt(text);
        if v.None? || v.value < 0 { return false, c, text; }
        c', text' := Amount(v.value), "";
      }
    }

    /**
     * The entry part of `addData` at the clock `now`. Refused custom input
     * changes no record; amounts that are all zero add nothing; otherwise the
     * entry is added to today's bucket (started when missing), the form is
     * reset and the record is sent. `added` says whether the record changed.
     */
    method AddData(now: Clock) returns (added: bool)
      requires Valid()
      modifies this`inputFood, this`inputWater, this`inputUrination, this`inputDefecation,
        this`customInputFood, this`customInputWater, this`customInputUrination, this`records, this`sent
      ensures Valid()
      ensures var f := old(Inputs());
        var k := DateKey(now.year, now.month, now.day);
        && (added <==> f.Accepts() && AnyAmount(f.EntryAt(TimeText(now.hour, now.minute))) && AddReaches(old(records).Get(k)))
        && (!added ==> records == old(records) && sent == old(sent) && Inputs() == AfterCustomInput(f))
        && (added ==>
              records == AfterAdd(old(records), k, f.EntryAt(TimeText(now.hour, now.minute)))
              && sent == old(sent) + [UpdateRecordRequest(account, Some(records))]
              && Inputs() == ClearedForm)
    {
      added := false;
      var k := DateKey(now.year, now.month, now.day);
      ghost var f := Inputs();
      ghost var records0 := records;
      var ok := HandleCustomInput();
      if !ok {
        return;
      }
      var item := Entry(TimeText(now.hour, now.minute), inputFood.n, inputWater.n, inputUrination.n, inputDefecation);
      assert item == f.EntryAt(TimeText(now.hour, now.minute)) by {
        AfterCustomInputProperties(f, TimeText(now.hour, now.minute));
      }
      if !AnyAmount(item) {
        return;
      }
      added := AddEntry(k, item);
      if !added {
        return;
      }
      assert records == AfterAdd(records0, k, item);
      inputFood, inputWater, inputUrination, inputDefecation := Amount(0), Amount(0), Amount(0), 0;
      customInputFood, customInputWater, customInputUrination := "", "", "";
      sent := sent + [UpdateRecordRequest(account, Some(records))];
    }

    /**
     * `addData` from `if (!this.records[currentDate])` to the sums: today's
     * bucket is started when the value under `k` is falsy, then the entry is
     * added; a truthy value that is not a record makes `pop` throw.
     */
    method AddEntry(k: string, item: Entry) returns (added: bool)
      requires Valid()
      modifies this`records
      ensures Valid()
      ensures added <==> AddReaches(old(records).Get(k))
      ensures added ==> records == AfterAdd(old(records), k, item)
      ensures !added ==> records == old(records)
    {
      var before := records;
      if !Truthy(records.Get(k)) {
        InitRecords(k);
      }
      var stored := records.Get(k);
      if !(stored.Some? && stored.value.BucketV?) {
        return false;
      }
      var nb := AppendEntry(stored.value.bucket, item);
      records := records.Put(k, BucketV(nb));
      PutTwice(before, k, BucketV(FreshBucket(k)), BucketV(nb));
      return true;
    }

    /** `removeRecord` up to the dialog: the refresh is held off while it is open. */
    method BeginRemove()
      modifies this`confirming
      ensures confirming
    {
      confirming := true;
    }

    /**
     * The continuation of `removeRecord` with the dialog's answer and the row's
     * date and index. A refusal lets the refresh run again. A confirmation
     * reads the entry now at that row, takes it off the bucket and sends the
     * record; `removingRecord` stays set until the update is answered. A date
     * without a record makes the handler throw before any change; an index
     * past the end makes it throw after `count` has gone down. A throw leaves
     * `confirming` set.
     */
    method AnswerRemove(confirmed: bool, date: string, index: nat) returns (sending: bool)
      requires Valid()
      modifies this`confirming, this`removingRecord, this`records, this`sent
      ensures Valid()
      ensures !confirmed ==>
        !confirming && removingRecord == old(removingRecord) && records == old(records) && sent == old(sent) && !sending
      ensures confirmed ==> removingRecord && confirming == old(confirming)
      ensures confirmed ==>
        var stored := old(records).Get(date);
        if !(stored.Some? && stored.value.BucketV?) then !sending && records == old(records) && sent == old(sent)
        else
          var b := stored.value.bucket;
          if index < |b.data| then
            sending && records == old(records).Put(date, BucketV(RemovedAt(b, index, b.data[index])))
            && sent == old(sent) + [UpdateRecordRequest(account, Some(records))]
          else
            !sending && records == old(records).Put(date, BucketV(b.(count := b.count - 1))) && sent == old(sent)
    {
      sending := false;
      if !confirmed {
        confirming := false;
        return;
      }
      removingRecord := true;
      var stored := records.Get(date);
      if !(stored.Some? && stored.value.BucketV?) {
        return;
      }
      var b := stored.value.bucket;
      if index >= |b.data| {
        records := records.Put(date, BucketV(b.(count := b.count - 1)));
        return;
      }
      var nb := ClientRemove(b, index, b.data[index]);
      records := records.Put(date, BucketV(nb));
      sent := sent + [UpdateRecordRequest(account, Some(records))];
      sending := true;
    }

    /** The end of a confirmed removal, once the update is answered: both flags are cleared. */
    method CompleteRemove()
      requires removingRecord
      modifies this`removingRecord, this`confirming
      ensures !removingRecord && !confirming
    {
      removingRecord := false;
      confirming := false;
    }

    /** `processRestrictionText`: a new sentence when the limit is a number that is not blank; otherwise the old one stays. */
    method ProcessRestrictionText()
      modifies this`restriction
      ensures Restriction(records).Some? ==> restriction == Restriction(records)
      ensures Restriction(records).None? ==> restriction == old(restriction)
    {
      var v := records.Get(LimitAmountKey);
      if !ToNumber(v).NaN? && Trim(JsString(v)) != [] {
        var food, water := Truthy(records.Get(FoodCheckboxKey)), Truthy(records.Get(WaterCheckboxKey));
        var scope := NoScope;
        if food && water {
          scope := FoodAndWaterScope;
        } else if food {
          scope := FoodScope;
        } else if water {
          scope := WaterScope;
        }
        restriction := Some(Sentence(scope, JoinText(v)));
      }
    }

    /** `reversedRecord`: the keys of `records` walked from the last, the control keys skipped. */
    method ReversedRecord() returns (r: Obj)
      requires Valid()
      ensures r == NewestFirst(records)
    {
      r := NewestFirstOf(records);
    }

    /** The walk of `reversedRecord` over a record `o`. */
    static method NewestFirstOf(o: Obj) returns (r: Obj)
      requires o.WF()
      ensures r == NewestFirst(o)
    {
      var ks := Reverse(o.keys);
      assert Distinct(ks) by {
        assert Distinct(o.keys);
        ReverseDistinct(o.keys);
      }
      ReverseMembers(o.keys);
      r := Obj([], map[]);
      for j := 0 to |ks|
        invariant Walked(o, ks, j, r)
      {
        var k := ks[j];
        if !IsControlKey(k) {
          assert k !in ks[..j] by {
            DistinctPrefix(ks, j);
          }
          WalkTake(o, ks, j, r);
          r := r.Put(k, o.vals[k]);
        } else {
          WalkSkip(o, ks, j, r);
        }
      }
      WalkDone(o, r);
    }
    /**
     * `authenticate` with the `FETCH_RECORD` reply: an error status makes
     * `fetchRecords` throw before any field changes, an unknown account or a
     * wrong account type clears both credentials, a wrong password clears the
     * password, and any other message logs in with the fetched record.
     */
    method Authenticate(reply: RecordReply)
      requires Valid()
      requires reply.records.Some? ==> reply.records.value.WF()
      requires reply.message !in {AcctNotExist, AuthFailPassword, InvalidAcctType, ServerError} ==> reply.records.Some?
      modifies this`account, this`password, this`authenticated, this`records, this`restriction, this`sent
      ensures Valid()
      ensures sent == old(sent) + [FetchRecord]
      ensures reply.message == ServerError ==>
        account == old(account) && password == old(password) && authenticated == old(authenticated)
        && records == old(records) && restriction == old(restriction)
      ensures reply.message == AcctNotExist || reply.message == InvalidAcctType ==>
        account == "" && password == "" && authenticated == old(authenticated) && records == old(records)
      ensures reply.message == AuthFailPassword ==>
        account == old(account) && password == "" && authenticated == old(authenticated) && records == old(records)
      ensures reply.message !in {AcctNotExist, AuthFailPassword, InvalidAcctType, ServerError} ==>
        authenticated && account == old(account) && password == old(password) && records == reply.records.value
        && restriction == (if Restriction(records).Some? then Restriction(records) else old(restriction))
      ensures reply.message in {AcctNotExist, AuthFailPassword, InvalidAcctType} ==> restriction == old(restriction)
    {
      sent := sent + [FetchRecord];
      match reply.message
      case AcctNotExist =>
        account, password := "", "";
      case AuthFailPassword =>
        password := "";
      case InvalidAcctType =>
        account, password := "", "";
      case ServerError =>
      case _ =>
        authenticated := true;
        records := reply.records.value;
        ProcessRestrictionText();
    }

    /** The refresh interval's first half: it fetches only when logged in and no dialog is open. */
    method BeginRefresh() returns (fetching: bool)
      modifies this`sent
      ensures fetching <==> authenticated && !confirming
      ensures sent == old(sent) + (if fetching then [FetchRecord] else [])
    {
      fetching := authenticated && !confirming;
      if fetching {
        sent := sent + [FetchRecord];
      }
    }

    /**
     * The refresh interval's second half: the fetched record replaces `records`
     * only when the message is the success and no dialog opened meanwhile.
     */
    method FinishRefresh(reply: RecordReply)
      requires Valid()
      requires reply.message == FetchRecordSuccess ==> reply.records.Some? && reply.records.value.WF()
      modifies this`records, this`restriction
      ensures Valid()
      ensures !confirming && reply.message == FetchRecordSuccess ==>
        records == reply.records.value
        && restriction == (if Restriction(records).Some? then Restriction(records) else old(restriction))
      ensures confirming || reply.message != FetchRecordSuccess ==> records == old(records) && restriction == old(restriction)
    {
      if !confirming && reply.message == FetchRecordSuccess {
        records := reply.records.value;
        ProcessRestrictionText();
      }
    }
  }
}
