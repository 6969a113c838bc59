/**
 * The stored data: a patient record maps date keys to daily-record buckets and
 * also carries four control keys for the restriction editor. Values are the
 * JSON scalars the record can hold, or a bucket.
 */
module Records {
  import opened Wrappers
  import opened JsText

  /** The four counted quantities of an entry, in the order every loop visits them. */
  datatype Field = Food | Water | Urination | Defecation

  const Fields: seq<Field> := [Food, Water, Urination, Defecation]

  /** One entry of a day: the minute it was recorded and the four amounts. */
  datatype Entry = Entry(time: string, food: int, water: int, urination: int, defecation: int)
  {
    function Get(f: Field): int {
      match f
      case Food => food
      case Water => water
      case Urination => urination
      case Defecation => defecation
    }

    function Set(f: Field, v: int): (e: Entry)
      ensures e.time == time && e.Get(f) == v
      ensures forall g :: g != f ==> e.Get(g) == Get(g)
    {
      match f
      case Food => this.(food := v)
      case Water => this.(water := v)
      case Urination => this.(urination := v)
      case Defecation => this.(defecation := v)
    }
  }

  /** A daily record: its entries, their count, the four running sums and the weight text. */
  datatype Bucket = Bucket(
    data: seq<Entry>,
    count: int,
    recordDate: string,
    foodSum: int,
    waterSum: int,
    urinationSum: int,
    defecationSum: int,
    weight: string)
  {
    /** The stored `<field>Sum`. */
    function Sum(f: Field): int {
      match f
      case Food => foodSum
      case Water => waterSum
      case Urination => urinationSum
      case Defecation => defecationSum
    }

    function WithSum(f: Field, v: int): (b: Bucket)
      ensures b.data == data && b.count == count && b.recordDate == recordDate && b.weight == weight
      ensures b.Sum(f) == v && forall g :: g != f ==> b.Sum(g) == Sum(g)
    {
      match f
      case Food => this.(foodSum := v)
      case Water => this.(waterSum := v)
      case Urination => this.(urinationSum := v)
      case Defecation => this.(defecationSum := v)
    }
  }

  /** The sum of one field over a sequence of entries. */
  function Total(s: seq<Entry>, f: Field): int {
    if s == [] then 0 else Total(s[..|s| - 1], f) + s[|s| - 1].Get(f)
  }

  /** The invariant the validator demands: `count` is the number of entries and every sum is its field's total. */
  predicate Consistent(b: Bucket) {
    b.count == |b.data| && forall f :: b.Sum(f) == Total(b.data, f)
  }

  /** Every amount, every sum and the count are non-negative. */
  predicate NonNegative(b: Bucket) {
    b.count >= 0 && (forall f :: b.Sum(f) >= 0)
    && forall i, f :: 0 <= i < |b.data| ==> b.data[i].Get(f) >= 0
  }

  // ---------------------------------------------------------------- values

  /** A value stored under a key of a patient record. */
  datatype Value = BoolV(b: bool) | StrV(s: string) | IntV(i: int) | NullV | BucketV(bucket: Bucket)

  /**
   * A JSON object with its keys in insertion order, as both JavaScript and
   * Python keep them.
   */
  datatype Obj = Obj(keys: seq<string>, vals: map<string, Value>)
  {
    predicate WF() {
      (forall i, j :: 0 <= i < j < |keys| ==> keys[i] != keys[j])
      && (forall k :: k in keys ==> k in vals)
      && (forall k :: k in vals ==> k in keys)
    }

    /** `o[k]`; `None` is `undefined` (JavaScript) or a missing key (Python). */
    function Get(k: string): Option<Value> {
      if k in vals then Some(vals[k]) else None
    }

    /** `o[k] = v`: an existing key keeps its place, a new key goes last. */
    function Put(k: string, v: Value): (r: Obj)
      ensures WF() ==> r.WF()
      ensures r.Get(k) == Some(v)
      ensures forall j :: j != k ==> r.Get(j) == Get(j)
      ensures k in keys ==> r.keys == keys
      ensures k !in keys ==> r.keys == keys + [k]
    {
      Obj(if k in keys then keys else keys + [k], vals[k := v])
    }
  }

  /** A second assignment to the same key overrides the first and keeps its position. */
  lemma PutTwice(o: Obj, k: string, a: Value, b: Value)
    ensures o.Put(k, a).Put(k, b) == o.Put(k, b)
  {
    assert o.vals[k := a][k := b] == o.vals[k := b];
  }

  const Empty: Obj := Obj([], map[])

  // ---------------------------------------------------------------- control keys

  /** The restriction-editor keys, in the order both clients insert them. */
  const ControlKeys: seq<string> := ["isEditing", "limitAmount", "foodCheckboxChecked", "waterCheckboxChecked"]

  /** The control keys by name (a name, unlike a literal, is not unfolded by the verifier). */
  const IsEditingKey: string := "isEditing"
  const LimitAmountKey: string := "limitAmount"
  const FoodCheckboxKey: string := "foodCheckboxChecked"
  const WaterCheckboxKey: string := "waterCheckboxChecked"

  predicate IsControlKey(k: string) {
    k in ControlKeys
  }

  /** The value each control key takes when it is missing: `false`, `""`, `false`, `false`. */
  function DefaultControl(k: string): Value {
    if k == "limitAmount" then StrV("") else BoolV(false)
  }

  /** The record holding only the four control keys at their defaults. */
  const DefaultControls: Obj :=
    Obj(ControlKeys, map k | k in ControlKeys :: DefaultControl(k))

  lemma DefaultControlsWF()
    ensures DefaultControls.WF()
    ensures forall k :: DefaultControls.Get(k).Some? <==> IsControlKey(k)
  {
  }

  /** The keys of a record that hold daily records rather than control values. */
  function RecordKeys(keys: seq<string>): (r: seq<string>)
    ensures forall k :: k in r <==> k in keys && !IsControlKey(k)
    ensures |r| <= |keys|
  {
    if keys == [] then []
    else if IsControlKey(keys[0]) then RecordKeys(keys[1..])
    else [keys[0]] + RecordKeys(keys[1..])
  }

  // ---------------------------------------------------------------- keys the clients write

  /** The clients' date key `${year}_${month}_${("0" + day).slice(-2)}`: the month is not padded, the day is. */
  function DateKey(year: nat, month: nat, day: nat): string {
    NatToString(year) + "_" + NatToString(month) + "_" + Pad2(day)
  }

  /** The patient client's entry time `HH:MM`, both parts padded. */
  function TimeText(hour: nat, minute: nat): string {
    Pad2(hour) + ":" + Pad2(minute)
  }

  // ---------------------------------------------------------------- JavaScript view of a value

  /** Truthiness of a property read; `None` is `undefined`. */
  predicate Truthy(v: Option<Value>) {
    match v
    case None => false
    case Some(BoolV(b)) => b
    case Some(StrV(s)) => s != []
    case Some(IntV(i)) => i != 0
    case Some(NullV) => false
    case Some(BucketV(_)) => true
  }

  /** `String(v)`. */
  function JsString(v: Option<Value>): string {
    match v
    case None => "undefined"
    case Some(BoolV(b)) => if b then "true" else "false"
    case Some(StrV(s)) => s
    case Some(IntV(i)) => IntToString(i)
    case Some(NullV) => "null"
    case Some(BucketV(_)) => "[object Object]"
  }

  /** `Number(v)`, the conversion `isNaN` and the relational operators apply. */
  function ToNumber(v: Option<Value>): Num {
    match v
    case None => NaN
    case Some(BoolV(b)) => Finite(if b then 1.0 else 0.0)
    case Some(StrV(s)) => StringToNumber(s)
    case Some(IntV(i)) => Finite(i as real)
    case Some(NullV) => Finite(0.0)
    case Some(BucketV(_)) => NaN
  }

  /** `x > v` for a number `x`: false whenever `v` converts to NaN. */
  predicate GreaterThan(x: int, v: Option<Value>) {
    match ToNumber(v)
    case NaN => false
    case Infinity(negative) => negative
    case Finite(r) => x as real > r
  }

  /** A sum-exceeds-limit colour, as the two clients return it. */
  datatype Color = Red | Inherit

  // ---------------------------------------------------------------- protocol

  /** The messages the backend answers with. */
  datatype Message =
    | IncorrectToken
    | MissingParameter
    | InvalidAcctType
    | AcctNotExist
    | AuthFailPassword
    | InvalidRecordFormat
    | RecordNotFound
    | RecordDataCreateSuccess
    | RecordDataUpdateSuccess
    | RecordDataDeleteSuccess
    | UpdateRecordSuccess
    | SetLimitsSuccess
    | TransferPatientSuccess
    | TransferPatientNotEmpty
    | AddPatientSuccess
    | RemovePatientSuccess
    | FetchMonitoringPatientsSuccess
    | FetchUnmonitoredPatientsSuccess
    | FetchRecordSuccess
    /** An uncaught exception in a handler: the server answers with an error status. */
    | ServerError

  // ---------------------------------------------------------------- what the clients send

  /** A request a client sends to the backend; the credentials every request carries are left out. */
  datatype Request =
    | FetchMonitoringPatients
    | FetchUnmonitoredPatients
    | FetchRecord
    /** `UPDATE_RECORD` with the record as `data`; `None` is an `undefined` record, which JSON drops. */
    | UpdateRecordRequest(patient: string, record: Option<Obj>)

  // ---------------------------------------------------------------- the sum colours of both clients

  /**
   * `get<Own>SumColor`: with the own checkbox set, today's own sum, plus the
   * other sum when the other checkbox is set too, is compared with
   * `limitAmount`. A missing today record makes the property read throw
   * (`Err`); any other non-object value reads as `undefined`, the sum is NaN
   * and nothing is red.
   */
  function SumColor(rec: Obj, today: string, ownBox: string, otherBox: string, own: Field, other: Field): Result<Color> {
    if !Truthy(rec.Get(ownBox)) then Ok(Inherit)
    else match rec.Get(today)
      case None => Err
      case Some(NullV) => Err
      case Some(BucketV(b)) =>
        var total := b.Sum(own) + (if Truthy(rec.Get(otherBox)) then b.Sum(other) else 0);
        Ok(if GreaterThan(total, rec.Get("limitAmount")) then Red else Inherit)
      case Some(_) => Ok(Inherit)
  }

  function FoodSumColor(rec: Obj, today: string): Result<Color> {
    SumColor(rec, today, "foodCheckboxChecked", "waterCheckboxChecked", Food, Water)
  }

  function WaterSumColor(rec: Obj, today: string): Result<Color> {
    SumColor(rec, today, "waterCheckboxChecked", "foodCheckboxChecked", Water, Food)
  }

  /** With both checkboxes set both columns compare the same combined sum, so they always agree. */
  lemma ColorsAgreeWhenBothChecked(rec: Obj, today: string)
    requires Truthy(rec.Get("foodCheckboxChecked")) && Truthy(rec.Get("waterCheckboxChecked"))
    ensures FoodSumColor(rec, today) == WaterSumColor(rec, today)
  {
    match rec.Get(today)
    case Some(BucketV(b)) =>
      assert b.Sum(Food) + b.Sum(Water) == b.Sum(Water) + b.Sum(Food);
    case _ =>
  }

  /** An unchecked column is never red and never reads today's record. */
  lemma UncheckedColumnInherits(rec: Obj, today: string)
    ensures !Truthy(rec.Get("foodCheckboxChecked")) ==> FoodSumColor(rec, today) == Ok(Inherit)
    ensures !Truthy(rec.Get("waterCheckboxChecked")) ==> WaterSumColor(rec, today) == Ok(Inherit)
  {
  }

  /** Against a limit that converts to the number `x`, the food column is red exactly when the compared sum exceeds `x`. */
  lemma FoodColorAgainstLimit(rec: Obj, today: string, b: Bucket, x: real)
    requires Truthy(rec.Get("foodCheckboxChecked")) && rec.Get(today) == Some(BucketV(b))
    requires ToNumber(rec.Get("limitAmount")) == Finite(x)
    ensures FoodSumColor(rec, today) == Ok(Red) <==>
      (b.foodSum + (if Truthy(rec.Get("waterCheckboxChecked")) then b.waterSum else 0)) as real > x
  {
  }

  /**
   * With a limit written as a decimal numeral, the food column is red exactly
   * when today's food sum, plus the water sum when that box is set, exceeds it.
   */
  lemma FoodColorAgainstNumeral(rec: Obj, today: string, n: nat, b: Bucket)
    requires Truthy(rec.Get("foodCheckboxChecked")) && rec.Get(today) == Some(BucketV(b))
    requires rec.Get("limitAmount") == Some(StrV(NatToString(n)))
    ensures FoodSumColor(rec, today) == Ok(Red) <==>
      b.foodSum + (if Truthy(rec.Get("waterCheckboxChecked")) then b.waterSum else 0) > n
  {
    DecimalReadsBack(n);
    FoodColorAgainstLimit(rec, today, b, n as real);
  }

  /** An empty limit reads as 0: with the box set, any positive sum is red. */
  lemma EmptyLimitIsZero(rec: Obj, today: string, b: Bucket)
    requires Truthy(rec.Get("foodCheckboxChecked")) && rec.Get(today) == Some(BucketV(b))
    requires rec.Get("limitAmount") == Some(StrV("")) && !Truthy(rec.Get("waterCheckboxChecked"))
    ensures FoodSumColor(rec, today) == Ok(Red) <==> b.foodSum > 0
  {
  }
}
