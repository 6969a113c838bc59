/**
 * The backend's request handlers for the record and monitor events. The data
 * file (patient account -> record) and the relations file (monitor account ->
 * patient accounts) are the fields of a `Store`; a handler writes a field only
 * where the handler writes the file. The account database is an oracle: the
 * result of `db.authenticate` and the account types and passwords are
 * parameters.
 */
module Backend {
  import opened Wrappers
  import opened JsText
  import opened Records
  import opened Aggregate
  import opened Validator
  import opened Ordering

  datatype AccountType = PatientAccount | MonitorAccount

  /** `db.get_account_type(v)`: only a known account name has a type. */
  function TypeOf(types: map<string, AccountType>, v: Option<Value>): (r: Option<AccountType>)
    ensures r.Some? <==> v.Some? && v.value.StrV? && v.value.s in types
  {
    match v
    case Some(StrV(s)) => if s in types then Some(types[s]) else None
    case _ => None
  }

  /** The string a request parameter holds, if it is one. */
  function Str(v: Option<Value>): Option<string> {
    match v
    case Some(StrV(s)) => Some(s)
    case _ => None
  }

  /** `has_parameters`: every name is a key of the request, whatever its value. */
  function HasParameters(req: Obj, names: seq<string>): (r: bool)
    ensures r <==> forall n :: n in names ==> n in req.vals
  {
    names == [] || (names[0] in req.vals && HasParameters(req, names[1..]))
  }

  /**
   * The token gate: the request is answered "Incorrect token" when no token is
   * configured, or when it carries a token that is not the configured one.
   * Python truthiness agrees with `Truthy` on every value modelled here.
   */
  predicate TokenRejected(configured: Option<Value>, supplied: Option<Value>) {
    !Truthy(configured) || (Truthy(supplied) && supplied != configured)
  }

  /**
   * Nothing passes without a configured token; with one, a request passes with
   * that token, with none at all, or with a falsy one such as `""`.
   */
  lemma TokenGate(configured: Option<Value>, supplied: Option<Value>)
    ensures !Truthy(configured) ==> TokenRejected(configured, supplied)
    ensures Truthy(configured) ==> !TokenRejected(configured, configured) && !TokenRejected(configured, None)
    ensures Truthy(configured) && !Truthy(supplied) ==> !TokenRejected(configured, supplied)
  {
  }

  // ---------------------------------------------------------------- the state

  /** Every record in the data file is a JSON object. */
  predicate WellFormed(data: map<string, Obj>) {
    forall p :: p in data ==> data[p].WF()
  }

  /** A stored record whose every record key holds a consistent bucket of non-negative amounts. */
  predicate RecordValid(o: Obj) {
    o.WF() && forall k :: k in o.keys && !IsControlKey(k) ==>
      o.Get(k).Some? && o.Get(k).value.BucketV? && Consistent(o.Get(k).value.bucket) && NonNegative(o.Get(k).value.bucket)
  }

  predicate StoreValid(data: map<string, Obj>) {
    forall p :: p in data ==> RecordValid(data[p])
  }

  /** A handler's answer and the data file as it stands afterwards. */
  datatype Reply = Reply(msg: Message, data: map<string, Obj>)

  /** Why `db.authenticate` refused the credentials; `None` is its success value. */
  datatype AuthError = UnknownAccount | WrongPassword

  function AuthMessage(e: AuthError): Message {
    match e
    case UnknownAccount => AcctNotExist
    case WrongPassword => AuthFailPassword
  }

  /** The record events' gate: the three parameters, then the requester's credentials. */
  function RecordGate(req: Obj, auth: Option<AuthError>): (r: Option<Message>)
    ensures r.Some? ==> r.value in {MissingParameter, AcctNotExist, AuthFailPassword}
  {
    if !HasParameters(req, ["account", "password", "patient"]) then Some(MissingParameter)
    else if auth.Some? then Some(AuthMessage(auth.value))
    else None
  }

  /** The monitor events' gate: the two parameters, the credentials, then a monitor account. */
  function MonitorGate(req: Obj, auth: Option<AuthError>, types: map<string, AccountType>): (r: Option<Message>)
    ensures r.None? ==> TypeOf(types, req.Get("account")) == Some(MonitorAccount)
    ensures r.Some? ==> r.value in {MissingParameter, AcctNotExist, AuthFailPassword, InvalidAcctType}
  {
    if !HasParameters(req, ["account", "password"]) then Some(MissingParameter)
    else if auth.Some? then Some(AuthMessage(auth.value))
    else if TypeOf(types, req.Get("account")) != Some(MonitorAccount) then Some(InvalidAcctType)
    else None
  }

  /** `parse_date_key` accepts the parameter (it turns a non-string's error into a ValueError too). */
  predicate KeyParses(v: Option<Value>) {
    Str(v).Some? && ParseDateKey(Str(v).value).Some?
  }

  predicate TimeParses(v: Option<Value>) {
    Str(v).Some? && ParseTime(Str(v).value).Some?
  }

  predicate RecordDateOk(v: Option<Value>, today: Date) {
    Str(v).Some? && ParseRecordDate(Str(v).value, today).Some?
  }

  /** `post_request.get(k, d)`. */
  function GetOr(req: Obj, k: string, d: Value): Option<Value> {
    if k in req.vals then Some(req.vals[k]) else Some(d)
  }

  // ---------------------------------------------------------------- NEW_DAILY_RECORD

  const NewDailyParameters: seq<string> := ["key", "recordDate", "time", "food", "water", "urination", "defecation", "weight"]

  /** The item of a new daily record: the request's time and four amounts. */
  function NewItem(req: Obj): Option<Entry> {
    RecordItemOf(req.Get("time"), req.Get("food"), req.Get("water"), req.Get("urination"), req.Get("defecation"))
  }

  /** The bucket a new date key starts with: the one item, `count` 1 and the item's amounts as the sums. */
  function FirstBucket(item: Entry, recordDate: string, weight: string): Bucket {
    Bucket([item], 1, recordDate, item.food, item.water, item.urination, item.defecation, weight)
  }

  /** `data[p]`, or the four control keys at their defaults when the patient has no record yet. */
  function RecordOrDefaults(data: map<string, Obj>, p: string): (r: Obj)
    requires WellFormed(data)
    ensures r.WF()
    ensures p !in data ==> forall k :: r.Get(k).Some? <==> IsControlKey(k)
  {
    DefaultControlsWF();
    if p in data then data[p] else DefaultControls
  }

  /**
   * The last step of the three daily-record events: validate the changed
   * bucket; only a valid one is stored under `k`, and only then is the data
   * file written.
   */
  function Commit(data: map<string, Obj>, p: string, rec: Obj, k: string, nb: Bucket, today: Date, now: Time,
                  success: Message): Reply
    requires rec.WF()
  {
    if DailyRecordValid(nb, today, now) then Reply(success, data[p := rec.Put(k, BucketV(nb))])
    else Reply(InvalidRecordFormat, data)
  }

  /** The bucket an event would store, before it is validated, or the answer that ends the event first. */
  datatype Staged = Staged(bucket: Bucket) | Refused(msg: Message)

  /**
   * NEW_DAILY_RECORD on the patient's record: start a bucket for a new date
   * key, merge into the bucket under an existing one. A non-string weight
   * fails validation; a key holding something else than a record raises.
   */
  function NewDailyBucket(rec: Obj, k: string, recordDate: string, item: Entry, weight: Option<Value>): Staged {
    match rec.Get(k)
    case None =>
      if Str(weight).None? then Refused(InvalidRecordFormat) else Staged(FirstBucket(item, recordDate, Str(weight).value))
    case Some(BucketV(b)) =>
      if Str(weight).None? then Refused(InvalidRecordFormat) else Staged(BackendAdd(b, item, Str(weight).value))
    case Some(_) => Refused(ServerError)
  }

  /** NEW_DAILY_RECORD once the request has passed its checks: create or extend the bucket and validate it. */
  function NewDailyStore(data: map<string, Obj>, p: string, k: string, recordDate: string, item: Entry,
                         weight: Option<Value>, today: Date, now: Time): Reply
    requires WellFormed(data)
  {
    var rec := RecordOrDefaults(data, p);
    match NewDailyBucket(rec, k, recordDate, item, weight)
    case Refused(m) => Reply(m, data)
    case Staged(nb) => Commit(data, p, rec, k, nb, today, now, RecordDataCreateSuccess)
  }

  /** The checks NEW_DAILY_RECORD makes before it reads the data file, in their order. */
  function NewDailyChecks(req: Obj, auth: Option<AuthError>, types: map<string, AccountType>, today: Date): (r: Option<Message>)
    ensures r.None? ==> TypeOf(types, req.Get("patient")) == Some(PatientAccount)
    ensures r.None? ==> KeyParses(req.Get("key")) && RecordDateOk(req.Get("recordDate"), today) && TimeParses(req.Get("time"))
    ensures r.None? ==> NewItem(req).Some?
  {
    if RecordGate(req, auth).Some? then RecordGate(req, auth)
    else if !HasParameters(req, NewDailyParameters) then Some(MissingParameter)
    else if TypeOf(types, req.Get("patient")) != Some(PatientAccount) then Some(InvalidAcctType)
    else if !KeyParses(req.Get("key")) || !RecordDateOk(req.Get("recordDate"), today) || !TimeParses(req.Get("time")) then
      Some(InvalidRecordFormat)
    else if NewItem(req).None? then Some(InvalidRecordFormat)
    else None
  }

  function NewDaily(data: map<string, Obj>, req: Obj, auth: Option<AuthError>, types: map<string, AccountType>,
                    today: Date, now: Time): Reply
    requires WellFormed(data)
  {
    if NewDailyChecks(req, auth, types, today).Some? then Reply(NewDailyChecks(req, auth, types, today).value, data)
    else
      NewDailyStore(data, Str(req.Get("patient")).value, Str(req.Get("key")).value, Str(req.Get("recordDate")).value,
                    NewItem(req).value, req.Get("weight"), today, now)
  }

  /** The field loop of a same-minute add: every sum and every amount of `last` grow by the item's amount. */
  method AddToLast(b: Bucket, last0: Entry, item: Entry) returns (r: Bucket, last: Entry)
    ensures r.data == b.data && r.count == b.count && r.recordDate == b.recordDate && r.weight == b.weight
    ensures last.time == last0.time
    ensures forall f :: r.Sum(f) == b.Sum(f) + item.Get(f) && last.Get(f) == last0.Get(f) + item.Get(f)
  {
    last := last0;
    r := b;
    for j := 0 to |Fields|
      invariant r.data == b.data && r.count == b.count && r.recordDate == b.recordDate && r.weight == b.weight
      invariant last.time == last0.time
      invariant forall i :: 0 <= i < j ==> r.Sum(Fields[i]) == b.Sum(Fields[i]) + item.Get(Fields[i])
      invariant forall i :: 0 <= i < j ==> last.Get(Fields[i]) == last0.Get(Fields[i]) + item.Get(Fields[i])
      invariant forall i :: j <= i < |Fields| ==> r.Sum(Fields[i]) == b.Sum(Fields[i])
      invariant forall i :: j <= i < |Fields| ==> last.Get(Fields[i]) == last0.Get(Fields[i])
    {
      var f := Fields[j];
      last := last.Set(f, last.Get(f) + item.Get(f));
      r := r.WithSum(f, r.Sum(f) + item.Get(f));
    }
    forall f ensures r.Sum(f) == b.Sum(f) + item.Get(f) && last.Get(f) == last0.Get(f) + item.Get(f) {
      assert f == Fields[0] || f == Fields[1] || f == Fields[2] || f == Fields[3];
    }
  }

  /**
   * `for field in fields: items[-1][field] += item[field]; sums[field] += item[field]`
   * when the last entry has the item's time; otherwise `count += 1`, the sums
   * grow by the item and the item is appended.
   */
  method AddItem(b: Bucket, item: Entry) returns (r: Bucket)
    ensures r == BackendAdd(b, item, b.weight)
  {
    if SameMinute(b.data, item) {
      var n := |b.data| - 1;
      var last;
      r, last := AddToLast(b, b.data[n], item);
      assert last.Get(Food) == Plus(b.data[n], item).Get(Food) && last.Get(Water) == Plus(b.data[n], item).Get(Water);
      assert last.Get(Urination) == Plus(b.data[n], item).Get(Urination);
      assert last.Get(Defecation) == Plus(b.data[n], item).Get(Defecation);
      assert r.Sum(Food) == b.Sum(Food) + item.food && r.Sum(Water) == b.Sum(Water) + item.water;
      assert r.Sum(Urination) == b.Sum(Urination) + item.urination;
      assert r.Sum(Defecation) == b.Sum(Defecation) + item.defecation;
      r := r.(data := b.data[..n] + [last]);
    } else {
      r := ShiftSums(b.(count := b.count + 1), item);
      r := r.(data := b.data + [item]);
    }
  }

  // ---------------------------------------------------------------- UPDATE_DAILY_RECORD

  const UpdateDailyParameters: seq<string> := ["key", "time", "food", "water", "urination", "defecation", "weight"]

  /** The replacement amounts: `post_request.get(field, 0)` for each field. */
  function UpdatedItem(req: Obj): Option<Entry> {
    RecordItemOf(req.Get("time"), GetOr(req, "food", IntV(0)), GetOr(req, "water", IntV(0)),
                 GetOr(req, "urination", IntV(0)), GetOr(req, "defecation", IntV(0)))
  }

  /** The first entry recorded at `t`. */
  function FirstAt(s: seq<Entry>, t: string): (r: Option<nat>)
    ensures r.Some? ==> r.value < |s| && s[r.value].time == t && forall j :: 0 <= j < r.value ==> s[j].time != t
    ensures r.None? ==> forall j :: 0 <= j < |s| ==> s[j].time != t
  {
    if s == [] then None
    else if s[0].time == t then Some(0)
    else match FirstAt(s[1..], t)
      case None => None
      case Some(i) => Some(i + 1)
  }

  /** UPDATE_DAILY_RECORD once the request has passed its checks. */
  function UpdateDailyStore(data: map<string, Obj>, p: string, k: string, t: string, item: Option<Entry>,
                            weight: Option<Value>, today: Date, now: Time): Reply
    requires WellFormed(data)
  {
    var rec := if p in data then data[p] else Empty;
    if rec.Get(k).None? then Reply(RecordNotFound, data)
    else if item.None? then Reply(InvalidRecordFormat, data)
    else match rec.Get(k).value
      case BucketV(b) =>
        (match FirstAt(b.data, t)
         case None => Reply(RecordNotFound, data)
         case Some(i) =>
           if Str(weight).None? then Reply(InvalidRecordFormat, data)
           else
             Commit(data, p, rec, k, Edited(b, i, item.value, b.data[i]).(weight := Str(weight).value), today, now,
                    RecordDataUpdateSuccess))
      case _ => Reply(ServerError, data)
  }

  /** The checks UPDATE_DAILY_RECORD and DELETE_DAILY_RECORD make before they read the data file. */
  function DailyChecks(req: Obj, auth: Option<AuthError>, types: map<string, AccountType>, parameters: seq<string>)
    : (r: Option<Message>)
    ensures r.None? ==> TypeOf(types, req.Get("patient")) == Some(PatientAccount)
    ensures r.None? ==> KeyParses(req.Get("key")) && TimeParses(req.Get("time"))
  {
    if RecordGate(req, auth).Some? then RecordGate(req, auth)
    else if !HasParameters(req, parameters) then Some(MissingParameter)
    else if TypeOf(types, req.Get("patient")) != Some(PatientAccount) then Some(InvalidAcctType)
    else if !KeyParses(req.Get("key")) || !TimeParses(req.Get("time")) then Some(InvalidRecordFormat)
    else None
  }

  function UpdateDaily(data: map<string, Obj>, req: Obj, auth: Option<AuthError>, types: map<string, AccountType>,
                       today: Date, now: Time): Reply
    requires WellFormed(data)
  {
    if DailyChecks(req, auth, types, UpdateDailyParameters).Some? then
      Reply(DailyChecks(req, auth, types, UpdateDailyParameters).value, data)
    else
      UpdateDailyStore(data, Str(req.Get("patient")).value, Str(req.Get("key")).value, Str(req.Get("time")).value,
                       UpdatedItem(req), req.Get("weight"), today, now)
  }

  /**
   * `for field in fields: sum -= item[field]; item[field] = new[field]; sum += item[field]`
   * on entry `i`.
   */
  method ReplaceAmounts(b: Bucket, i: nat, a: Entry) returns (r: Bucket)
    requires i < |b.data|
    ensures r == Edited(b, i, a, b.data[i])
  {
    var e := b.data[i];
    r := b;
    for j := 0 to |Fields|
      invariant r.data == b.data && r.count == b.count && r.recordDate == b.recordDate && r.weight == b.weight
      invariant e.time == b.data[i].time
      invariant forall k :: 0 <= k < j ==> r.Sum(Fields[k]) == b.Sum(Fields[k]) - b.data[i].Get(Fields[k]) + a.Get(Fields[k])
      invariant forall k :: 0 <= k < j ==> e.Get(Fields[k]) == a.Get(Fields[k])
      invariant forall k :: j <= k < |Fields| ==> r.Sum(Fields[k]) == b.Sum(Fields[k])
      invariant forall k :: j <= k < |Fields| ==> e.Get(Fields[k]) == b.data[i].Get(Fields[k])
    {
      var f := Fields[j];
      r := r.WithSum(f, r.Sum(f) - e.Get(f));
      e := e.Set(f, a.Get(f));
      r := r.WithSum(f, r.Sum(f) + e.Get(f));
    }
    assert e.Get(Fields[0]) == a.Get(Fields[0]) && e.Get(Fields[1]) == a.Get(Fields[1]);
    assert e.Get(Fields[2]) == a.Get(Fields[2]) && e.Get(Fields[3]) == a.Get(Fields[3]);
    assert r.Sum(Fields[0]) == b.Sum(Fields[0]) - b.data[i].Get(Fields[0]) + a.Get(Fields[0]);
    assert r.Sum(Fields[1]) == b.Sum(Fields[1]) - b.data[i].Get(Fields[1]) + a.Get(Fields[1]);
    assert r.Sum(Fields[2]) == b.Sum(Fields[2]) - b.data[i].Get(Fields[2]) + a.Get(Fields[2]);
    assert r.Sum(Fields[3]) == b.Sum(Fields[3]) - b.data[i].Get(Fields[3]) + a.Get(Fields[3]);
    r := r.(data := b.data[i := e]);
  }

  /** The search loop with its `found` flag: edit the first entry recorded at `t` and stop. */
  method EditFirst(b: Bucket, t: string, a: Entry) returns (r: Bucket, found: bool)
    ensures found <==> FirstAt(b.data, t).Some?
    ensures found ==> r == Edited(b, FirstAt(b.data, t).value, a, b.data[FirstAt(b.data, t).value])
    ensures !found ==> r == b
  {
    r, found := b, false;
    var i := 0;
    while i < |b.data|
      invariant 0 <= i <= |b.data|
      invariant forall j :: 0 <= j < i ==> b.data[j].time != t
    {
      if b.data[i].time == t {
        r := ReplaceAmounts(b, i, a);
        found := true;
        break;
      }
      i := i + 1;
    }
  }

  // ---------------------------------------------------------------- DELETE_DAILY_RECORD

  /** The last entry recorded at `t`. */
  function LastAt(s: seq<Entry>, t: string): (r: Option<nat>)
    ensures r.Some? ==> r.value < |s| && s[r.value].time == t && forall j :: r.value < j < |s| ==> s[j].time != t
    ensures r.None? ==> forall j :: 0 <= j < |s| ==> s[j].time != t
  {
    if s == [] then None
    else if s[|s| - 1].time == t then Some(|s| - 1)
    else LastAt(s[..|s| - 1], t)
  }

  /** DELETE_DAILY_RECORD once the request has passed its checks. */
  function DeleteDailyStore(data: map<string, Obj>, p: string, k: string, t: string, today: Date, now: Time): Reply
    requires WellFormed(data)
  {
    if p !in data || data[p].Get(k).None? then Reply(RecordNotFound, data)
    else match data[p].Get(k).value
      case BucketV(b) =>
        (match LastAt(b.data, t)
         case None => Reply(RecordNotFound, data)
         case Some(i) =>
           Commit(data, p, data[p], k, RemovedAt(b, i, b.data[i]), today, now, RecordDataDeleteSuccess))
      case _ => Reply(ServerError, data)
  }

  function DeleteDaily(data: map<string, Obj>, req: Obj, auth: Option<AuthError>, types: map<string, AccountType>,
                       today: Date, now: Time): Reply
    requires WellFormed(data)
  {
    if DailyChecks(req, auth, types, ["key", "time"]).Some? then Reply(DailyChecks(req, auth, types, ["key", "time"]).value, data)
    else DeleteDailyStore(data, Str(req.Get("patient")).value, Str(req.Get("key")).value, Str(req.Get("time")).value, today, now)
  }

  /** The search loop without a `break`: it remembers the last entry recorded at `t`. */
  method FindLast(s: seq<Entry>, t: string) returns (idx: int)
    ensures idx == (if LastAt(s, t).Some? then LastAt(s, t).value as int else -1)
  {
    idx := -1;
    for i := 0 to |s|
      invariant -1 <= idx < i
      invariant idx == -1 ==> forall j :: 0 <= j < i ==> s[j].time != t
      invariant idx >= 0 ==> s[idx].time == t && forall j :: idx < j < i ==> s[j].time != t
    {
      if s[i].time == t {
        idx := i;
      }
    }
    if idx >= 0 {
      LastAtIsLast(s, t, idx);
    }
  }

  lemma {:induction false} LastAtIsLast(s: seq<Entry>, t: string, i: nat)
    requires i < |s| && s[i].time == t && forall j :: i < j < |s| ==> s[j].time != t
    ensures LastAt(s, t) == Some(i)
  {
    if i < |s| - 1 {
      LastAtIsLast(s[..|s| - 1], t, i);
    }
  }

  /** `del data[i]; count -= 1; for field in fields: sum -= removed[field]`. */
  method RemoveEntry(b: Bucket, i: nat) returns (r: Bucket)
    requires i < |b.data|
    ensures r == RemovedAt(b, i, b.data[i])
  {
    var removed := b.data[i];
    r := b.(data := b.data[..i] + b.data[i + 1..], count := b.count - 1);
    r := ShiftSums(r, Minus(Entry(removed.time, 0, 0, 0, 0), removed));
  }

  // ---------------------------------------------------------------- UPDATE_RECORD

  /** The update with every control key that is also stored taking its stored value. */
  function Restored(u: Obj, orig: Obj): Obj {
    Obj(u.keys, map k | k in u.vals :: if IsControlKey(k) && k in orig.vals then orig.vals[k] else u.vals[k])
  }

  function UpdatedRecord(data: map<string, Obj>, req: Obj, update: Option<Obj>, auth: Option<AuthError>,
                         types: map<string, AccountType>, today: Date, now: Time): Reply
  {
    if RecordGate(req, auth).Some? then Reply(RecordGate(req, auth).value, data)
    else if TypeOf(types, req.Get("patient")) != Some(PatientAccount) then Reply(InvalidAcctType, data)
    else if update.None? then Reply(ServerError, data)
    else if !PatientDataValid(update.value, today, now) then Reply(InvalidRecordFormat, data)
    else
      var p := Str(req.Get("patient")).value;
      if p !in data then Reply(ServerError, data)
      else if TypeOf(types, req.Get("account")) == Some(PatientAccount) then
        Reply(UpdateRecordSuccess, data[p := Restored(update.value, data[p])])
      else Reply(UpdateRecordSuccess, data[p := update.value])
  }

  /** `for key in keys_to_filter: if key in update and key in original: update[key] = original[key]`. */
  method RestoreControls(u: Obj, orig: Obj) returns (r: Obj)
    ensures r == Restored(u, orig)
  {
    r := u;
    for i := 0 to |ControlKeys|
      invariant r.keys == u.keys && r.vals.Keys == u.vals.Keys
      invariant forall k :: k in r.vals ==>
        r.vals[k] == if k in ControlKeys[..i] && k in orig.vals then orig.vals[k] else u.vals[k]
    {
      var key := ControlKeys[i];
      if key in r.vals && key in orig.vals {
        r := Obj(r.keys, r.vals[key := orig.vals[key]]);
      }
    }
    assert ControlKeys[..|ControlKeys|] == ControlKeys;
  }

  // ---------------------------------------------------------------- UPDATE_LIMIT

  /**
   * `{**original, **{k: v for k, v in request if k is a control key}}`: the
   * request's control keys in its own order, an existing key keeping its place.
   */
  function MergeControls(o: Obj, req: Obj, ks: seq<string>): (r: Obj)
    requires o.WF() && forall k :: k in ks ==> k in req.vals
    ensures r.WF()
    ensures forall k :: k in ks && IsControlKey(k) ==> r.Get(k) == req.Get(k)
    ensures forall k :: !(k in ks && IsControlKey(k)) ==> r.Get(k) == o.Get(k)
    ensures |r.keys| >= |o.keys| && r.keys[..|o.keys|] == o.keys
    decreases |ks|
  {
    if ks == [] then o
    else if IsControlKey(ks[0]) then MergeControls(o.Put(ks[0], req.vals[ks[0]]), req, ks[1..])
    else MergeControls(o, req, ks[1..])
  }

  function LimitUpdate(data: map<string, Obj>, req: Obj, auth: Option<AuthError>, types: map<string, AccountType>,
                       today: Date, now: Time): Reply
    requires WellFormed(data) && req.WF()
  {
    if MonitorGate(req, auth, types).Some? then Reply(MonitorGate(req, auth, types).value, data)
    else if "patient" !in req.vals then Reply(MissingParameter, data)
    else if !HasParameters(req, ControlKeys) then Reply(MissingParameter, data)
    else if Str(req.Get("patient")).None? || Str(req.Get("patient")).value !in data then Reply(AcctNotExist, data)
    else
      var p := Str(req.Get("patient")).value;
      var simulated := MergeControls(data[p], req, req.keys);
      if PatientDataValid(simulated, today, now) then Reply(SetLimitsSuccess, data[p := simulated])
      else Reply(InvalidRecordFormat, data)
  }

  // ---------------------------------------------------------------- TRANSFER_PATIENT

  /** The first two checks on one side of a transfer. */
  function PatientCheck(types: map<string, AccountType>, v: Option<Value>): Option<Message> {
    match TypeOf(types, v)
    case None => Some(AcctNotExist)
    case Some(t) => if t != PatientAccount then Some(InvalidAcctType) else None
  }

  /**
   * TRANSFER_PATIENT: the answer and the data as the handler leaves it in
   * memory. The swap is never written to the data file.
   */
  function Transfer(data: map<string, Obj>, req: Obj, auth: Option<AuthError>, types: map<string, AccountType>)
    : (r: (Message, map<string, Obj>))
  {
    if MonitorGate(req, auth, types).Some? then (MonitorGate(req, auth, types).value, data)
    else if !HasParameters(req, ["patient_from", "patient_to"]) then (MissingParameter, data)
    else if PatientCheck(types, req.Get("patient_from")).Some? then (PatientCheck(types, req.Get("patient_from")).value, data)
    else if PatientCheck(types, req.Get("patient_to")).Some? then (PatientCheck(types, req.Get("patient_to")).value, data)
    else
      var from, to := Str(req.Get("patient_from")).value, Str(req.Get("patient_to")).value;
      if from !in data || to !in data then (ServerError, data)
      else if RecordKeys(data[to].keys) != [] then (TransferPatientNotEmpty, data)
      else (TransferPatientSuccess, data[from := data[to]][to := data[from]])
  }

  // ---------------------------------------------------------------- ADD_PATIENT and REMOVE_PATIENT

  /** `if p not in l: l.append(p); l.sort()`. */
  function Added(rel: seq<string>, p: string): seq<string> {
    if p in rel then rel else Sort(CodePoint, rel + [p])
  }

  /** The position `list.index` finds. */
  function FirstIndex(rel: seq<string>, p: string): (i: nat)
    requires p in rel
    ensures i < |rel| && rel[i] == p && forall j :: 0 <= j < i ==> rel[j] != p
  {
    if rel[0] == p then 0 else FirstIndex(rel[1..], p) + 1
  }

  /** `if p in l: del l[l.index(p)]`. */
  function RemovedFirst(rel: seq<string>, p: string): seq<string> {
    if p in rel then rel[..FirstIndex(rel, p)] + rel[FirstIndex(rel, p) + 1..] else rel
  }

  /** The monitor's account name, once the monitor gate has passed. */
  function MonitorOf(req: Obj): string
    requires Str(req.Get("account")).Some?
  {
    Str(req.Get("account")).value
  }

  // ---------------------------------------------------------------- FETCH_MONITORING and FETCH_UNMONITORED

  /** `[account, password]` for each listed patient whose password is set, in list order. */
  function PasswordRows(rel: seq<string>, passwords: map<string, string>): (r: seq<(string, string)>)
    ensures forall x :: x in r <==> x.0 in rel && x.0 in passwords && passwords[x.0] != [] && x.1 == passwords[x.0]
    ensures |r| <= |rel|
  {
    if rel == [] then []
    else
      var rest := PasswordRows(rel[..|rel| - 1], passwords);
      var p := rel[|rel| - 1];
      assert forall x :: x in rel <==> x in rel[..|rel| - 1] || x == p by {
        assert rel == rel[..|rel| - 1] + [p];
      }
      if p in passwords && passwords[p] != [] then rest + [(p, passwords[p])] else rest
  }

  /** Every patient some monitor watches. */
  function Monitored(relations: map<string, seq<string>>): set<string> {
    set m, p | m in relations && p in relations[m] :: p
  }

  /** The patient rows whose account name (the second column) nobody monitors, in their order. */
  function UnmonitoredRows(rows: seq<(int, string)>, monitored: set<string>): (r: seq<(int, string)>)
    ensures forall x :: x in r <==> x in rows && x.1 !in monitored
    ensures |r| <= |rows|
  {
    if rows == [] then []
    else
      var rest := UnmonitoredRows(rows[1..], monitored);
      assert forall x :: x in rows <==> x == rows[0] || x in rows[1..] by {
        assert rows == [rows[0]] + rows[1..];
      }
      if rows[0].1 !in monitored then [rows[0]] + rest else rest
  }

  lemma PutWellFormed(data: map<string, Obj>, p: string, o: Obj)
    requires WellFormed(data) && o.WF()
    ensures WellFormed(data[p := o])
  {
  }

  lemma {:induction false} NoRecordKeys(keys: seq<string>)
    requires forall j :: 0 <= j < |keys| ==> IsControlKey(keys[j])
    ensures RecordKeys(keys) == []
  {
    if keys != [] {
      NoRecordKeys(keys[1..]);
    }
  }

  // ---------------------------------------------------------------- what the handlers promise

  lemma DefaultsValid()
    ensures RecordValid(DefaultControls)
  {
    DefaultControlsWF();
  }

  /** A record that passes `PatientData` holds only valid, hence consistent, buckets under its record keys. */
  lemma PatientDataRecordValid(o: Obj, today: Date, now: Time)
    requires o.WF() && PatientDataValid(o, today, now)
    ensures RecordValid(o)
  {
    forall k | k in o.keys && !IsControlKey(k)
      ensures o.Get(k).Some? && o.Get(k).value.BucketV? && Consistent(o.Get(k).value.bucket) && NonNegative(o.Get(k).value.bucket)
    {
      ValidIsConsistent(o.Get(k).value.bucket, today, now);
    }
  }

  /** `Commit` stores the bucket exactly when it is valid, and otherwise leaves the data as it was. */
  lemma CommitOutcome(data: map<string, Obj>, p: string, rec: Obj, k: string, nb: Bucket, today: Date, now: Time,
                      success: Message)
    requires rec.WF() && success != InvalidRecordFormat
    ensures var r := Commit(data, p, rec, k, nb, today, now, success);
      && (r.msg == success <==> DailyRecordValid(nb, today, now))
      && (r.msg == success ==> r.data == data[p := rec.Put(k, BucketV(nb))])
      && (r.msg != success ==> r.msg == InvalidRecordFormat && r.data == data)
  {
  }

  /** Storing a bucket only after it passed `DailyRecord` keeps every stored bucket consistent. */
  lemma CommitKeepsValid(data: map<string, Obj>, p: string, rec: Obj, k: string, nb: Bucket, today: Date, now: Time,
                         success: Message)
    requires StoreValid(data) && RecordValid(rec)
    ensures StoreValid(Commit(data, p, rec, k, nb, today, now, success).data)
  {
    if DailyRecordValid(nb, today, now) {
      ValidIsConsistent(nb, today, now);
      PutBucketKeepsValid(rec, k, nb);
      StorePutValid(data, p, rec.Put(k, BucketV(nb)));
    }
  }

  /** Storing a consistent bucket of non-negative amounts keeps a record valid. */
  lemma PutBucketKeepsValid(rec: Obj, k: string, nb: Bucket)
    requires RecordValid(rec) && Consistent(nb) && NonNegative(nb)
    ensures RecordValid(rec.Put(k, BucketV(nb)))
  {
    var r := rec.Put(k, BucketV(nb));
    forall j | j in r.keys && !IsControlKey(j)
      ensures r.Get(j).Some? && r.Get(j).value.BucketV? && Consistent(r.Get(j).value.bucket) && NonNegative(r.Get(j).value.bucket)
    {
      if j != k {
        assert j in rec.keys;
      }
    }
  }

  lemma StorePutValid(data: map<string, Obj>, p: string, o: Obj)
    requires StoreValid(data) && RecordValid(o)
    ensures StoreValid(data[p := o])
  {
  }

  lemma NewDailyStoreKeepsValid(data: map<string, Obj>, p: string, k: string, rd: string, item: Entry,
                                weight: Option<Value>, today: Date, now: Time)
    requires StoreValid(data)
    ensures StoreValid(NewDailyStore(data, p, k, rd, item, weight, today, now).data)
  {
    var rec := RecordOrDefaults(data, p);
    DefaultsValid();
    assert RecordValid(rec);
    if NewDailyBucket(rec, k, rd, item, weight).Staged? {
      CommitKeepsValid(data, p, rec, k, NewDailyBucket(rec, k, rd, item, weight).bucket, today, now, RecordDataCreateSuccess);
    }
  }

  lemma NewDailyKeepsValid(data: map<string, Obj>, req: Obj, auth: Option<AuthError>, types: map<string, AccountType>,
                           today: Date, now: Time)
    requires StoreValid(data)
    ensures StoreValid(NewDaily(data, req, auth, types, today, now).data)
  {
    if NewDailyChecks(req, auth, types, today).None? {
      NewDailyStoreKeepsValid(data, Str(req.Get("patient")).value, Str(req.Get("key")).value, Str(req.Get("recordDate")).value,
                              NewItem(req).value, req.Get("weight"), today, now);
    }
  }

  lemma UpdateDailyStoreKeepsValid(data: map<string, Obj>, p: string, k: string, t: string, item: Option<Entry>,
                                   weight: Option<Value>, today: Date, now: Time)
    requires StoreValid(data)
    ensures WellFormed(data) && StoreValid(UpdateDailyStore(data, p, k, t, item, weight, today, now).data)
  {
    var rec := if p in data then data[p] else Empty;
    if rec.Get(k).Some? && item.Some? && rec.Get(k).value.BucketV? {
      var b := rec.Get(k).value.bucket;
      if FirstAt(b.data, t).Some? && Str(weight).Some? {
        var i := FirstAt(b.data, t).value;
        CommitKeepsValid(data, p, rec, k, Edited(b, i, item.value, b.data[i]).(weight := Str(weight).value), today, now,
                         RecordDataUpdateSuccess);
      }
    }
  }

  lemma UpdateDailyKeepsValid(data: map<string, Obj>, req: Obj, auth: Option<AuthError>, types: map<string, AccountType>,
                              today: Date, now: Time)
    requires StoreValid(data)
    ensures StoreValid(UpdateDaily(data, req, auth, types, today, now).data)
  {
    if DailyChecks(req, auth, types, UpdateDailyParameters).None? {
      UpdateDailyStoreKeepsValid(data, Str(req.Get("patient")).value, Str(req.Get("key")).value, Str(req.Get("time")).value,
                                 UpdatedItem(req), req.Get("weight"), today, now);
    }
  }

  lemma DeleteDailyStoreKeepsValid(data: map<string, Obj>, p: string, k: string, t: string, today: Date, now: Time)
    requires StoreValid(data)
    ensures WellFormed(data) && StoreValid(DeleteDailyStore(data, p, k, t, today, now).data)
  {
    if p in data && data[p].Get(k).Some? && data[p].Get(k).value.BucketV? {
      var b := data[p].Get(k).value.bucket;
      if LastAt(b.data, t).Some? {
        var i := LastAt(b.data, t).value;
        CommitKeepsValid(data, p, data[p], k, RemovedAt(b, i, b.data[i]), today, now, RecordDataDeleteSuccess);
      }
    }
  }

  lemma DeleteDailyKeepsValid(data: map<string, Obj>, req: Obj, auth: Option<AuthError>, types: map<string, AccountType>,
                              today: Date, now: Time)
    requires StoreValid(data)
    ensures StoreValid(DeleteDaily(data, req, auth, types, today, now).data)
  {
    if DailyChecks(req, auth, types, ["key", "time"]).None? {
      DeleteDailyStoreKeepsValid(data, Str(req.Get("patient")).value, Str(req.Get("key")).value, Str(req.Get("time")).value,
                                 today, now);
    }
  }

  lemma UpdateRecordKeepsValid(data: map<string, Obj>, req: Obj, update: Option<Obj>, auth: Option<AuthError>,
                               types: map<string, AccountType>, today: Date, now: Time)
    requires StoreValid(data) && (update.Some? ==> update.value.WF())
    ensures StoreValid(UpdatedRecord(data, req, update, auth, types, today, now).data)
  {
    var r := UpdatedRecord(data, req, update, auth, types, today, now);
    if r.msg == UpdateRecordSuccess {
      var u := update.value;
      var p := Str(req.Get("patient")).value;
      PatientDataRecordValid(u, today, now);
      var stored := r.data[p];
      assert stored == u || stored == Restored(u, data[p]);
      assert RecordValid(stored) by {
        if stored == Restored(u, data[p]) {
          assert forall k :: !IsControlKey(k) ==> stored.Get(k) == u.Get(k);
        }
      }
    }
  }

  lemma LimitUpdateKeepsValid(data: map<string, Obj>, req: Obj, auth: Option<AuthError>, types: map<string, AccountType>,
                              today: Date, now: Time)
    requires StoreValid(data) && req.WF()
    ensures StoreValid(LimitUpdate(data, req, auth, types, today, now).data)
  {
    var r := LimitUpdate(data, req, auth, types, today, now);
    if r.msg == SetLimitsSuccess {
      var p := Str(req.Get("patient")).value;
      PatientDataRecordValid(MergeControls(data[p], req, req.keys), today, now);
    }
  }

  /** NEW_DAILY_RECORD stores the staged bucket under `k` exactly when it is valid; nothing else changes. */
  lemma NewDailyStored(data: map<string, Obj>, p: string, k: string, rd: string, item: Entry,
                       weight: Option<Value>, today: Date, now: Time)
    requires WellFormed(data)
    ensures var r := NewDailyStore(data, p, k, rd, item, weight, today, now);
      var s := NewDailyBucket(RecordOrDefaults(data, p), k, rd, item, weight);
      && (r.msg == RecordDataCreateSuccess <==> s.Staged? && DailyRecordValid(s.bucket, today, now))
      && (r.msg == RecordDataCreateSuccess ==> r.data == data[p := RecordOrDefaults(data, p).Put(k, BucketV(s.bucket))])
      && (r.msg != RecordDataCreateSuccess ==> r.data == data)
  {
    var rec := RecordOrDefaults(data, p);
    var s := NewDailyBucket(rec, k, rd, item, weight);
    if s.Staged? {
      CommitOutcome(data, p, rec, k, s.bucket, today, now, RecordDataCreateSuccess);
    } else {
      assert s.msg != RecordDataCreateSuccess;
    }
  }

  /**
   * A patient's first record starts with the four control keys at their
   * defaults, followed by the new date key.
   */
  lemma FirstRecordHasDefaults(data: map<string, Obj>, p: string, k: string, rd: string, item: Entry,
                               weight: Option<Value>, today: Date, now: Time)
    requires WellFormed(data) && p !in data && ParseDateKey(k).Some?
    requires NewDailyStore(data, p, k, rd, item, weight, today, now).msg == RecordDataCreateSuccess
    ensures p in NewDailyStore(data, p, k, rd, item, weight, today, now).data
    ensures var r := NewDailyStore(data, p, k, rd, item, weight, today, now).data[p];
      r.keys == ControlKeys + [k] && forall c :: IsControlKey(c) ==> r.Get(c) == Some(DefaultControl(c))
  {
    ControlKeysAreNotDates();
    DefaultControlsWF();
    assert RecordOrDefaults(data, p) == DefaultControls;
    assert !IsControlKey(k);
    NewDailyStored(data, p, k, rd, item, weight, today, now);
  }

  /**
   * A new date key starts a bucket of the one item: `count` 1, the item's
   * amounts as the sums, the request's weight; a non-string weight is refused
   * as invalid.
   */
  lemma NewKeyBucket(rec: Obj, k: string, rd: string, item: Entry, weight: Option<Value>)
    requires rec.Get(k).None?
    ensures Str(weight).None? ==> NewDailyBucket(rec, k, rd, item, weight) == Refused(InvalidRecordFormat)
    ensures Str(weight).Some? ==>
      var s := NewDailyBucket(rec, k, rd, item, weight);
      s.Staged? && s.bucket.data == [item] && s.bucket.count == 1
      && (forall f :: s.bucket.Sum(f) == item.Get(f))
      && s.bucket.recordDate == rd && s.bucket.weight == Str(weight).value
  {
    if Str(weight).Some? {
      var nb := FirstBucket(item, rd, Str(weight).value);
      assert forall f :: nb.Sum(f) == item.Get(f);
    }
  }

  /**
   * On an existing bucket the item is merged into the last entry when that has
   * the same time (`count` unchanged) and appended otherwise (`count` + 1); the
   * sums grow by the item and the weight is overwritten.
   */
  lemma ExistingKeyBucket(rec: Obj, k: string, rd: string, item: Entry, weight: Option<Value>, b: Bucket)
    requires rec.Get(k) == Some(BucketV(b))
    ensures Str(weight).None? ==> NewDailyBucket(rec, k, rd, item, weight) == Refused(InvalidRecordFormat)
    ensures Str(weight).Some? ==>
      var s := NewDailyBucket(rec, k, rd, item, weight);
      s.Staged? &&
      var nb := s.bucket;
      && (forall f :: nb.Sum(f) == b.Sum(f) + item.Get(f))
      && nb.weight == Str(weight).value && nb.recordDate == b.recordDate
      && (SameMinute(b.data, item) ==>
            nb.count == b.count && |nb.data| == |b.data| && nb.data[..|b.data| - 1] == b.data[..|b.data| - 1]
            && nb.data[|b.data| - 1].time == item.time
            && forall f :: nb.data[|b.data| - 1].Get(f) == b.data[|b.data| - 1].Get(f) + item.Get(f))
      && (!SameMinute(b.data, item) ==> nb.count == b.count + 1 && nb.data == b.data + [item])
  {
    CoalescedShape(b.data, item);
    if Str(weight).Some? {
      var nb := BackendAdd(b, item, Str(weight).value);
      assert forall f :: nb.Sum(f) == Shifted(b, item).Sum(f);
    }
  }

  /** A key that holds something other than a daily record makes the event raise. */
  lemma NonRecordKeyRaises(rec: Obj, k: string, rd: string, item: Entry, weight: Option<Value>)
    requires rec.Get(k).Some? && !rec.Get(k).value.BucketV?
    ensures NewDailyBucket(rec, k, rd, item, weight) == Refused(ServerError)
  {
  }

  /**
   * UPDATE_DAILY_RECORD answers "not found" for a missing key or time and
   * otherwise edits the first entry with that time: its amounts become the new
   * ones, every sum moves by new minus old, and `count` is unchanged.
   */
  lemma UpdateEditsFirstMatch(data: map<string, Obj>, p: string, k: string, t: string, item: Option<Entry>,
                              weight: Option<Value>, today: Date, now: Time)
    requires WellFormed(data)
    ensures (p !in data || data[p].Get(k).None?) ==> UpdateDailyStore(data, p, k, t, item, weight, today, now) == Reply(RecordNotFound, data)
    ensures p in data && data[p].Get(k).Some? && data[p].Get(k).value.BucketV? && item.Some?
            && FirstAt(data[p].Get(k).value.bucket.data, t).None? ==>
              UpdateDailyStore(data, p, k, t, item, weight, today, now) == Reply(RecordNotFound, data)
    ensures UpdateDailyStore(data, p, k, t, item, weight, today, now).msg == RecordDataUpdateSuccess ==>
      p in data && data[p].Get(k).Some? && data[p].Get(k).value.BucketV? && item.Some? &&
      var b := data[p].Get(k).value.bucket;
      FirstAt(b.data, t).Some? &&
      var i := FirstAt(b.data, t).value;
      var r := UpdateDailyStore(data, p, k, t, item, weight, today, now).data[p].Get(k);
      r.Some? && r.value.BucketV? &&
      var nb := r.value.bucket;
      && (forall j :: 0 <= j < i ==> b.data[j].time != t)
      && nb.count == b.count && nb.data == b.data[i := WithAmounts(b.data[i], item.value)]
      && (forall f :: nb.Sum(f) == b.Sum(f) - b.data[i].Get(f) + item.value.Get(f))
      && Str(weight) == Some(nb.weight)
  {
    if p in data && data[p].Get(k).Some? && data[p].Get(k).value.BucketV? && item.Some? {
      var b := data[p].Get(k).value.bucket;
      if FirstAt(b.data, t).Some? {
        var i := FirstAt(b.data, t).value;
        EditedSums(b, i, item.value, b.data[i]);
        if Str(weight).Some? {
          var e := Edited(b, i, item.value, b.data[i]);
          var nb := e.(weight := Str(weight).value);
          assert forall f :: nb.Sum(f) == e.Sum(f);
        }
      }
    }
  }

  /** DELETE_DAILY_RECORD answers "not found", changing nothing, without a stored bucket or without an entry at `t`. */
  lemma DeleteWithoutMatchNotFound(data: map<string, Obj>, p: string, k: string, t: string, today: Date, now: Time)
    requires WellFormed(data)
    ensures (p !in data || data[p].Get(k).None?) ==> DeleteDailyStore(data, p, k, t, today, now) == Reply(RecordNotFound, data)
    ensures p in data && data[p].Get(k).Some? && data[p].Get(k).value.BucketV?
            && LastAt(data[p].Get(k).value.bucket.data, t).None? ==>
              DeleteDailyStore(data, p, k, t, today, now) == Reply(RecordNotFound, data)
  {
  }

  /**
   * DELETE_DAILY_RECORD removes the last entry with the given time: `count`
   * goes down by one, the sums lose its amounts and the other entries keep
   * their order.
   */
  lemma DeleteRemovesLastMatch(data: map<string, Obj>, p: string, k: string, t: string, today: Date, now: Time)
    requires WellFormed(data)
    ensures DeleteDailyStore(data, p, k, t, today, now).msg == RecordDataDeleteSuccess ==>
      p in data && data[p].Get(k).Some? && data[p].Get(k).value.BucketV? &&
      var b := data[p].Get(k).value.bucket;
      LastAt(b.data, t).Some? &&
      var i := LastAt(b.data, t).value;
      var r := DeleteDailyStore(data, p, k, t, today, now).data[p].Get(k);
      r.Some? && r.value.BucketV? &&
      var nb := r.value.bucket;
      && (forall j :: i < j < |b.data| ==> b.data[j].time != t)
      && nb.count == b.count - 1 && nb.data == b.data[..i] + b.data[i + 1..]
      && (forall f :: nb.Sum(f) == b.Sum(f) - b.data[i].Get(f))
      && nb.weight == b.weight
  {
    var r := DeleteDailyStore(data, p, k, t, today, now);
    if r.msg == RecordDataDeleteSuccess {
      assert p in data && data[p].Get(k).Some? && data[p].Get(k).value.BucketV?;
      var b := data[p].Get(k).value.bucket;
      assert LastAt(b.data, t).Some?;
      var i := LastAt(b.data, t).value;
      assert r == Commit(data, p, data[p], k, RemovedAt(b, i, b.data[i]), today, now, RecordDataDeleteSuccess);
      DeleteStoresRemoved(data, p, k, b, i, today, now);
    }
  }

  /** Removing entry `i` of the stored bucket `b` and committing it stores `b` without that entry. */
  lemma DeleteStoresRemoved(data: map<string, Obj>, p: string, k: string, b: Bucket, i: nat, today: Date, now: Time)
    requires p in data && data[p].WF() && data[p].Get(k) == Some(BucketV(b)) && i < |b.data|
    ensures var r := Commit(data, p, data[p], k, RemovedAt(b, i, b.data[i]), today, now, RecordDataDeleteSuccess);
      r.msg == RecordDataDeleteSuccess ==>
        var o := r.data[p].Get(k);
        o.Some? && o.value.BucketV? &&
        var nb := o.value.bucket;
        && nb.count == b.count - 1 && nb.data == b.data[..i] + b.data[i + 1..]
        && (forall f :: nb.Sum(f) == b.Sum(f) - b.data[i].Get(f))
        && nb.weight == b.weight
  {
    var nb := RemovedAt(b, i, b.data[i]);
    RemovedAtSums(b, i, b.data[i]);
    assert nb.data == b.data[..i] + b.data[i + 1..];
    CommitOutcome(data, p, data[p], k, nb, today, now, RecordDataDeleteSuccess);
  }

  /**
   * UPDATE_RECORD stores the update as given, except that a patient-typed
   * requester cannot change a control key present in both the update and the
   * stored record: the stored value is kept.
   */
  lemma PatientCannotChangeControls(data: map<string, Obj>, req: Obj, update: Option<Obj>, auth: Option<AuthError>,
                                    types: map<string, AccountType>, today: Date, now: Time)
    ensures var r := UpdatedRecord(data, req, update, auth, types, today, now);
      r.msg == UpdateRecordSuccess ==>
        update.Some? && Str(req.Get("patient")).Some? &&
        var p := Str(req.Get("patient")).value;
        p in data && r.data == data[p := r.data[p]]
        && (forall k :: !IsControlKey(k) ==> r.data[p].Get(k) == update.value.Get(k))
        && (TypeOf(types, req.Get("account")) == Some(PatientAccount) ==>
              forall c :: IsControlKey(c) && c in update.value.vals && c in data[p].vals ==> r.data[p].Get(c) == data[p].Get(c))
        && (TypeOf(types, req.Get("account")) != Some(PatientAccount) ==> r.data[p] == update.value)
  {
  }

  /** UPDATE_LIMIT sets all four control keys from the request and leaves every other key of the record as it was. */
  lemma LimitUpdateSetsControls(data: map<string, Obj>, req: Obj, auth: Option<AuthError>, types: map<string, AccountType>,
                                today: Date, now: Time)
    requires WellFormed(data) && req.WF()
    ensures var r := LimitUpdate(data, req, auth, types, today, now);
      r.msg == SetLimitsSuccess ==>
        Str(req.Get("patient")).Some? &&
        var p := Str(req.Get("patient")).value;
        p in data && r.data == data[p := r.data[p]]
        && (forall c :: IsControlKey(c) ==> r.data[p].Get(c) == req.Get(c))
        && (forall k :: !IsControlKey(k) ==> r.data[p].Get(k) == data[p].Get(k))
  {
  }

  /** A transfer whose checks pass and whose two records exist. */
  predicate TransferReady(data: map<string, Obj>, req: Obj, auth: Option<AuthError>, types: map<string, AccountType>) {
    && MonitorGate(req, auth, types).None?
    && HasParameters(req, ["patient_from", "patient_to"])
    && PatientCheck(types, req.Get("patient_from")).None? && PatientCheck(types, req.Get("patient_to")).None?
    && Str(req.Get("patient_from")).value in data && Str(req.Get("patient_to")).value in data
  }

  lemma RecordKeysEmpty(keys: seq<string>)
    ensures RecordKeys(keys) == [] <==> forall k :: k in keys ==> IsControlKey(k)
  {
    if RecordKeys(keys) != [] {
      assert RecordKeys(keys)[0] in RecordKeys(keys);
    }
  }

  /**
   * A ready transfer is refused as "not empty" exactly when the target has a
   * record key; otherwise the two records are swapped. Anything else leaves the
   * data as it was.
   */
  lemma TransferOutcome(data: map<string, Obj>, req: Obj, auth: Option<AuthError>, types: map<string, AccountType>)
    ensures !TransferReady(data, req, auth, types) ==>
      Transfer(data, req, auth, types).1 == data
      && Transfer(data, req, auth, types).0 != TransferPatientSuccess && Transfer(data, req, auth, types).0 != TransferPatientNotEmpty
    ensures TransferReady(data, req, auth, types) ==>
      var from, to := Str(req.Get("patient_from")).value, Str(req.Get("patient_to")).value;
      && (Transfer(data, req, auth, types).0 == TransferPatientNotEmpty <==> exists k :: k in data[to].keys && !IsControlKey(k))
      && (Transfer(data, req, auth, types).0 == TransferPatientNotEmpty ==> Transfer(data, req, auth, types).1 == data)
      && (Transfer(data, req, auth, types).0 != TransferPatientNotEmpty ==>
            Transfer(data, req, auth, types).0 == TransferPatientSuccess
            && Transfer(data, req, auth, types).1 == data[from := data[to]][to := data[from]])
  {
    if TransferReady(data, req, auth, types) {
      RecordKeysEmpty(data[Str(req.Get("patient_to")).value].keys);
    }
  }

  /** ADD_PATIENT puts the patient in the list once, sorted, and a second identical request changes nothing. */
  lemma AddedProperties(rel: seq<string>, p: string)
    ensures p in Added(rel, p)
    ensures p in rel ==> Added(rel, p) == rel
    ensures p !in rel ==> multiset(Added(rel, p)) == multiset(rel) + multiset{p} && Ascending(CodePoint, Added(rel, p))
    ensures Ascending(CodePoint, rel) ==> Ascending(CodePoint, Added(rel, p))
    ensures Added(Added(rel, p), p) == Added(rel, p)
  {
    if p !in rel {
      SortAscending(CodePoint, rel + [p]);
      assert p in multiset(rel + [p]);
      assert p in multiset(Added(rel, p));
    }
  }

  lemma SpliceAscending(s: seq<string>, i: nat)
    requires i < |s| && Ascending(CodePoint, s)
    ensures Ascending(CodePoint, s[..i] + s[i + 1..])
  {
    var r := s[..i] + s[i + 1..];
    forall a, b | 0 <= a < b < |r| ensures LexLe(CodePoint, r[a], r[b]) {
      var a', b' := if a < i then a else a + 1, if b < i then b else b + 1;
      assert r[a] == s[a'] && r[b] == s[b'];
    }
  }

  /** REMOVE_PATIENT takes out one occurrence of the patient and keeps the rest in order. */
  lemma RemovedFirstProperties(rel: seq<string>, p: string)
    ensures p !in rel ==> RemovedFirst(rel, p) == rel
    ensures p in rel ==> multiset(RemovedFirst(rel, p)) == multiset(rel) - multiset{p} && |RemovedFirst(rel, p)| == |rel| - 1
    ensures Ascending(CodePoint, rel) ==> Ascending(CodePoint, RemovedFirst(rel, p))
  {
    if p in rel {
      var i := FirstIndex(rel, p);
      assert rel == rel[..i] + [p] + rel[i + 1..];
      if Ascending(CodePoint, rel) {
        SpliceAscending(rel, i);
      }
    }
  }

  /** On a sorted list without the patient, removing after adding gives back the list. */
  lemma RemoveUndoesAdd(rel: seq<string>, p: string)
    requires Ascending(CodePoint, rel) && p !in rel
    ensures RemovedFirst(Added(rel, p), p) == rel
  {
    AddedProperties(rel, p);
    RemovedFirstProperties(Added(rel, p), p);
    AscendingUnique(CodePoint, RemovedFirst(Added(rel, p), p), rel);
  }

  class Store {
    /** The data file: each patient's record. */
    var data: map<string, Obj>
    /** The relations file's `monitor_accounts`: each monitor's patients. */
    var relations: map<string, seq<string>>

    predicate Valid()
      reads this
    {
      WellFormed(data)
    }

    constructor (data: map<string, Obj>, relations: map<string, seq<string>>)
      requires WellFormed(data)
      ensures Valid() && this.data == data && this.relations == relations
    {
      this.data := data;
      this.relations := relations;
    }

    /** Validate the bucket and store it, writing the data file, or answer that it is invalid. */
    method CommitBucket(p: string, rec: Obj, k: string, nb: Bucket, today: Date, now: Time, success: Message)
      returns (m: Message)
      requires Valid() && rec.WF()
      modifies this
      ensures Valid() && relations == old(relations)
      ensures Reply(m, data) == Commit(old(data), p, rec, k, nb, today, now, success)
    {
      if !DailyRecordValid(nb, today, now) { return InvalidRecordFormat; }
      var r := rec.Put(k, BucketV(nb));
      PutWellFormed(data, p, r);
      data := data[p := r];
      m := success;
    }

    method NewDailyRecord(req: Obj, auth: Option<AuthError>, types: map<string, AccountType>, today: Date, now: Time)
      returns (m: Message)
      requires Valid()
      modifies this
      ensures Valid() && relations == old(relations)
      ensures Reply(m, data) == NewDaily(old(data), req, auth, types, today, now)
    {
      var checks := NewDailyChecks(req, auth, types, today);
      if checks.Some? { return checks.value; }
      m := StoreNewDaily(Str(req.Get("patient")).value, Str(req.Get("key")).value, Str(req.Get("recordDate")).value,
                         NewItem(req).value, req.Get("weight"), today, now);
    }

    /** The part of NEW_DAILY_RECORD that reads and writes the data file. */
    method StoreNewDaily(p: string, k: string, recordDate: string, item: Entry, weight: Option<Value>, today: Date, now: Time)
      returns (m: Message)
      requires Valid()
      modifies this
      ensures Valid() && relations == old(relations)
      ensures Reply(m, data) == NewDailyStore(old(data), p, k, recordDate, item, weight, today, now)
    {
      var rec := RecordOrDefaults(data, p);
      var w := Str(weight);
      match rec.Get(k) {
        case None =>
          if w.None? { return InvalidRecordFormat; }
          m := CommitBucket(p, rec, k, FirstBucket(item, recordDate, w.value), today, now, RecordDataCreateSuccess);
        case Some(BucketV(b)) =>
          if w.None? { return InvalidRecordFormat; }
          var nb := AddItem(b, item);
          m := CommitBucket(p, rec, k, nb.(weight := w.value), today, now, RecordDataCreateSuccess);
        case Some(_) =>
          m := ServerError;
      }
    }

    method UpdateDailyRecord(req: Obj, auth: Option<AuthError>, types: map<string, AccountType>, today: Date, now: Time)
      returns (m: Message)
      requires Valid()
      modifies this
      ensures Valid() && relations == old(relations)
      ensures Reply(m, data) == UpdateDaily(old(data), req, auth, types, today, now)
    {
      var checks := DailyChecks(req, auth, types, UpdateDailyParameters);
      if checks.Some? { return checks.value; }
      m := StoreUpdateDaily(Str(req.Get("patient")).value, Str(req.Get("key")).value, Str(req.Get("time")).value,
                            UpdatedItem(req), req.Get("weight"), today, now);
    }

    /** The part of UPDATE_DAILY_RECORD that reads and writes the data file. */
    method StoreUpdateDaily(p: string, k: string, t: string, item: Option<Entry>, weight: Option<Value>, today: Date, now: Time)
      returns (m: Message)
      requires Valid()
      modifies this
      ensures Valid() && relations == old(relations)
      ensures Reply(m, data) == UpdateDailyStore(old(data), p, k, t, item, weight, today, now)
    {
      var rec := if p in data then data[p] else Empty;
      if rec.Get(k).None? { return RecordNotFound; }
      if item.None? { return InvalidRecordFormat; }
      match rec.Get(k).value {
        case BucketV(b) =>
          var nb, found := EditFirst(b, t, item.value);
          if !found { return RecordNotFound; }
          var w := Str(weight);
          if w.None? { return InvalidRecordFormat; }
          m := CommitBucket(p, rec, k, nb.(weight := w.value), today, now, RecordDataUpdateSuccess);
        case _ =>
          m := ServerError;
      }
    }

    method DeleteDailyRecord(req: Obj, auth: Option<AuthError>, types: map<string, AccountType>, today: Date, now: Time)
      returns (m: Message)
      requires Valid()
      modifies this
      ensures Valid() && relations == old(relations)
      ensures Reply(m, data) == DeleteDaily(old(data), req, auth, types, today, now)
    {
      var checks := DailyChecks(req, auth, types, ["key", "time"]);
      if checks.Some? { return checks.value; }
      m := StoreDeleteDaily(Str(req.Get("patient")).value, Str(req.Get("key")).value, Str(req.Get("time")).value, today, now);
    }

    /** The part of DELETE_DAILY_RECORD that reads and writes the data file. */
    method StoreDeleteDaily(p: string, k: string, t: string, today: Date, now: Time) returns (m: Message)
      requires Valid()
      modifies this
      ensures Valid() && relations == old(relations)
      ensures Reply(m, data) == DeleteDailyStore(old(data), p, k, t, today, now)
    {
      if p !in data || data[p].Get(k).None? { return RecordNotFound; }
      match data[p].Get(k).value {
        case BucketV(b) =>
          var idx := FindLast(b.data, t);
          if idx < 0 { return RecordNotFound; }
          var nb := RemoveEntry(b, idx);
          m := CommitBucket(p, data[p], k, nb, today, now, RecordDataDeleteSuccess);
        case _ =>
          m := ServerError;
      }
    }

    method UpdateRecord(req: Obj, update: Option<Obj>, auth: Option<AuthError>, types: map<string, AccountType>,
                        today: Date, now: Time)
      returns (m: Message)
      requires Valid() && (update.Some? ==> update.value.WF())
      modifies this
      ensures Valid() && relations == old(relations)
      ensures Reply(m, data) == UpdatedRecord(old(data), req, update, auth, types, today, now)
    {
      var gate := RecordGate(req, auth);
      if gate.Some? { return gate.value; }
      if TypeOf(types, req.Get("patient")) != Some(PatientAccount) { return InvalidAcctType; }
      if update.None? { return ServerError; }
      if !PatientDataValid(update.value, today, now) { return InvalidRecordFormat; }
      var p := Str(req.Get("patient")).value;
      if p !in data { return ServerError; }
      var u := update.value;
      if TypeOf(types, req.Get("account")) == Some(PatientAccount) {
        u := RestoreControls(u, data[p]);
      }
      data := data[p := u];
      m := UpdateRecordSuccess;
    }

    method UpdateLimit(req: Obj, auth: Option<AuthError>, types: map<string, AccountType>, today: Date, now: Time)
      returns (m: Message)
      requires Valid() && req.WF()
      modifies this
      ensures Valid() && relations == old(relations)
      ensures Reply(m, data) == LimitUpdate(old(data), req, auth, types, today, now)
    {
      var gate := MonitorGate(req, auth, types);
      if gate.Some? { return gate.value; }
      if "patient" !in req.vals { return MissingParameter; }
      if !HasParameters(req, ControlKeys) { return MissingParameter; }
      var patient := Str(req.Get("patient"));
      if patient.None? || patient.value !in data { return AcctNotExist; }
      var simulated := MergeControls(data[patient.value], req, req.keys);
      if !PatientDataValid(simulated, today, now) { return InvalidRecordFormat; }
      data := data[patient.value := simulated];
      m := SetLimitsSuccess;
    }

    /** TRANSFER_PATIENT: its answer and the swapped data it builds; the store is not written. */
    method TransferPatient(req: Obj, auth: Option<AuthError>, types: map<string, AccountType>)
      returns (m: Message, swapped: map<string, Obj>)
      ensures (m, swapped) == Transfer(data, req, auth, types)
    {
      var gate := MonitorGate(req, auth, types);
      if gate.Some? { return gate.value, data; }
      if !HasParameters(req, ["patient_from", "patient_to"]) { return MissingParameter, data; }
      var check := PatientCheck(types, req.Get("patient_from"));
      if check.Some? { return check.value, data; }
      check := PatientCheck(types, req.Get("patient_to"));
      if check.Some? { return check.value, data; }
      var from, to := Str(req.Get("patient_from")).value, Str(req.Get("patient_to")).value;
      if from !in data || to !in data { return ServerError, data; }
      var keys := data[to].keys;
      for i := 0 to |keys|
        invariant forall j :: 0 <= j < i ==> IsControlKey(keys[j])
      {
        if !IsControlKey(keys[i]) {
          assert keys[i] in RecordKeys(keys);
          return TransferPatientNotEmpty, data;
        }
      }
      NoRecordKeys(keys);
      var fromData, toData := data[from], data[to];
      swapped := data[from := toData][to := fromData];
      m := TransferPatientSuccess;
    }

    method AddPatient(req: Obj, auth: Option<AuthError>, types: map<string, AccountType>) returns (m: Message)
      modifies this
      ensures data == old(data)
      ensures m == AddPatientSuccess <==>
        MonitorGate(req, auth, types).None? && "patient" in req.vals
        && TypeOf(types, req.Get("patient")) == Some(PatientAccount) && MonitorOf(req) in old(relations)
      ensures m == AddPatientSuccess ==>
        relations == old(relations)[MonitorOf(req) := Added(old(relations)[MonitorOf(req)], Str(req.Get("patient")).value)]
      ensures m != AddPatientSuccess ==> relations == old(relations)
      ensures m != AddPatientSuccess ==>
        m == (if MonitorGate(req, auth, types).Some? then MonitorGate(req, auth, types).value
              else if "patient" !in req.vals then MissingParameter
              else if TypeOf(types, req.Get("patient")).None? then AcctNotExist
              else if TypeOf(types, req.Get("patient")) != Some(PatientAccount) then InvalidAcctType
              else ServerError)
    {
      var gate := MonitorGate(req, auth, types);
      if gate.Some? { return gate.value; }
      if "patient" !in req.vals { return MissingParameter; }
      var kind := TypeOf(types, req.Get("patient"));
      if kind.None? { return AcctNotExist; }
      if kind.value != PatientAccount { return InvalidAcctType; }
      var monitor, patient := MonitorOf(req), Str(req.Get("patient")).value;
      if monitor !in relations { return ServerError; }
      var rel := relations[monitor];
      if patient !in rel {
        rel := Sort(CodePoint, rel + [patient]);
        relations := relations[monitor := rel];
      }
      m := AddPatientSuccess;
    }

    method RemovePatient(req: Obj, auth: Option<AuthError>, types: map<string, AccountType>) returns (m: Message)
      modifies this
      ensures data == old(data)
      ensures m == RemovePatientSuccess <==>
        MonitorGate(req, auth, types).None? && "patient" in req.vals && MonitorOf(req) in old(relations)
      ensures m == RemovePatientSuccess ==>
        relations == old(relations)[MonitorOf(req) :=
          if Str(req.Get("patient")).Some? then RemovedFirst(old(relations)[MonitorOf(req)], Str(req.Get("patient")).value)
          else old(relations)[MonitorOf(req)]]
      ensures m != RemovePatientSuccess ==> relations == old(relations)
      ensures m != RemovePatientSuccess ==>
        m == (if MonitorGate(req, auth, types).Some? then MonitorGate(req, auth, types).value
              else if "patient" !in req.vals then MissingParameter
              else ServerError)
    {
      var gate := MonitorGate(req, auth, types);
      if gate.Some? { return gate.value; }
      if "patient" !in req.vals { return MissingParameter; }
      var monitor := MonitorOf(req);
      if monitor !in relations { return ServerError; }
      var rel := relations[monitor];
      var patient := Str(req.Get("patient"));
      if patient.Some? && patient.value in rel {
        rel := rel[..FirstIndex(rel, patient.value)] + rel[FirstIndex(rel, patient.value) + 1..];
      }
      relations := relations[monitor := rel];
      m := RemovePatientSuccess;
    }

    /**
     * FETCH_MONITORING_PATIENTS: the monitor's patients that have a password,
     * with their passwords, and each one's record (an empty record when the data
     * file has none).
     */
    method FetchMonitoringPatients(req: Obj, auth: Option<AuthError>, types: map<string, AccountType>,
                                   passwords: map<string, string>)
      returns (m: Message, accounts: seq<(string, string)>, records: map<string, Obj>)
      ensures m == FetchMonitoringPatientsSuccess <==> MonitorGate(req, auth, types).None? && MonitorOf(req) in relations
      ensures MonitorGate(req, auth, types).Some? ==> m == MonitorGate(req, auth, types).value
      ensures m == FetchMonitoringPatientsSuccess ==> accounts == PasswordRows(relations[MonitorOf(req)], passwords)
      ensures m == FetchMonitoringPatientsSuccess ==>
        (forall p :: p in records <==> exists x :: x in accounts && x.0 == p)
        && forall p :: p in records ==> records[p] == if p in data then data[p] else Empty
      ensures m != FetchMonitoringPatientsSuccess ==> accounts == [] && records == map[]
    {
      accounts, records := [], map[];
      var gate := MonitorGate(req, auth, types);
      if gate.Some? { return gate.value, accounts, records; }
      var monitor := MonitorOf(req);
      if monitor !in relations { return ServerError, accounts, records; }
      accounts := CollectPasswordRows(relations[monitor], passwords);
      records := CollectRecords(accounts, data);
      m := FetchMonitoringPatientsSuccess;
    }

    /** The loop over the monitor's patients keeping those with a non-empty password. */
    static method CollectPasswordRows(rel: seq<string>, passwords: map<string, string>)
      returns (accounts: seq<(string, string)>)
      ensures accounts == PasswordRows(rel, passwords)
    {
      accounts := [];
      for i := 0 to |rel|
        invariant accounts == PasswordRows(rel[..i], passwords)
      {
        var patient := rel[i];
        if patient in passwords && passwords[patient] != [] {
          accounts := accounts + [(patient, passwords[patient])];
        }
        assert rel[..i + 1][..i] == rel[..i];
      }
      assert rel[..|rel|] == rel;
    }

    /** The loop filling `records` with each listed patient's stored record, or an empty one. */
    static method CollectRecords(accounts: seq<(string, string)>, data: map<string, Obj>) returns (records: map<string, Obj>)
      ensures forall p :: p in records <==> exists x :: x in accounts && x.0 == p
      ensures forall p :: p in records ==> records[p] == if p in data then data[p] else Empty
    {
      records := map[];
      for i := 0 to |accounts|
        invariant forall p :: p in records <==> exists j :: 0 <= j < i && accounts[j].0 == p
        invariant forall p :: p in records ==> records[p] == if p in data then data[p] else Empty
      {
        var patient := accounts[i].0;
        records := records[patient := if patient in data then data[patient] else Empty];
      }
      forall p ensures p in records <==> exists x :: x in accounts && x.0 == p {
        if p in records {
          var j :| 0 <= j < |accounts| && accounts[j].0 == p;
          assert accounts[j] in accounts;
        }
      }
    }

    /** `monitored_patients.update(patients)` for every monitor's list. */
    method MonitoredPatients() returns (s: set<string>)
      ensures s == Monitored(relations)
    {
      s := {};
      var todo := relations.Keys;
      while todo != {}
        invariant todo <= relations.Keys
        invariant forall p :: p in s <==> exists m :: m in relations && m !in todo && p in relations[m]
        decreases todo
      {
        var m :| m in todo;
        s := s + set p | p in relations[m];
        todo := todo - {m};
      }
    }

    /** FETCH_UNMONITORED_PATIENTS: the database's patient rows that no monitor watches. */
    method FetchUnmonitoredPatients(req: Obj, auth: Option<AuthError>, types: map<string, AccountType>,
                                    rows: seq<(int, string)>)
      returns (m: Message, unmonitored: seq<(int, string)>)
      ensures MonitorGate(req, auth, types).Some? ==> m == MonitorGate(req, auth, types).value && unmonitored == []
      ensures MonitorGate(req, auth, types).None? ==>
        m == FetchUnmonitoredPatientsSuccess && unmonitored == UnmonitoredRows(rows, Monitored(relations))
    {
      var gate := MonitorGate(req, auth, types);
      if gate.Some? { return gate.value, []; }
      var monitored := MonitoredPatients();
      m, unmonitored := FetchUnmonitoredPatientsSuccess, UnmonitoredRows(rows, monitored);
    }
  }
}
