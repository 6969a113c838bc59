/**
 * The monitor client: the records of the monitored patients as last fetched,
 * the views derived from them, the restriction editor, the record editor and
 * its removal flow, the background refresh and the transfer of one patient's
 * records to another.
 *
 * An `async` handler is split at its `await`s: one method runs up to the
 * `await`, and the continuation is a method of its own that receives what the
 * `await` returned (a backend reply, or the answer of the confirmation
 * dialog). `sent` logs the requests the client sends, in order; an update
 * request made without `await` is logged together with the step that makes it.
 */
module Monitor {
  import opened Wrappers
  import opened JsText
  import opened Records
  import opened Aggregate
  import opened Ordering

  // ---------------------------------------------------------------- derived views

  /** `monitoredPatientAccounts`: the account column of the `[account, password]` rows. */
  function MonitoredAccounts(rows: seq<(string, string)>): (r: seq<string>)
    ensures |r| == |rows| && forall i :: 0 <= i < |rows| ==> r[i] == rows[i].0
  {
    if rows == [] then [] else [rows[0].0] + MonitoredAccounts(rows[1..])
  }

  /** `account.toLowerCase().includes(query)`. */
  predicate Matches(account: string, query: string) {
    Includes(Lower(account), query)
  }

  /** The accounts that match `query`, in their order. */
  function KeepMatching(accounts: seq<string>, query: string): (r: seq<string>)
    ensures |r| <= |accounts|
    ensures forall a :: a in r <==> a in accounts && Matches(a, query)
  {
    if accounts == [] then []
    else (if Matches(accounts[0], query) then [accounts[0]] else []) + KeepMatching(accounts[1..], query)
  }

  /** `filterPatients`: the search text is trimmed and lower-cased; an empty one keeps every account. */
  function FilterPatients(accounts: seq<string>, searchQuery: string): seq<string> {
    var query := Lower(Trim(searchQuery));
    if query == [] then accounts else KeepMatching(accounts, query)
  }

  lemma IncludesEmpty(s: string)
    ensures Includes(s, [])
  {
    assert OccursAt(s, [], 0);
  }

  /** The filter keeps exactly the accounts whose lower-cased form contains the lower-cased, trimmed query. */
  lemma FilterPatientsMembership(accounts: seq<string>, searchQuery: string)
    ensures var query := Lower(Trim(searchQuery));
      forall a :: a in FilterPatients(accounts, searchQuery) <==> a in accounts && Matches(a, query)
  {
    var query := Lower(Trim(searchQuery));
    if query == [] {
      forall a ensures Matches(a, query) { IncludesEmpty(Lower(a)); }
    }
  }

  lemma {:induction false} KeepMatchingIdempotent(accounts: seq<string>, query: string)
    ensures KeepMatching(KeepMatching(accounts, query), query) == KeepMatching(accounts, query)
  {
    if accounts != [] {
      KeepMatchingIdempotent(accounts[1..], query);
      var head := if Matches(accounts[0], query) then [accounts[0]] else [];
      var r := head + KeepMatching(accounts[1..], query);
      if head == [] {
        assert r == KeepMatching(accounts[1..], query);
      } else {
        assert r[0] == accounts[0] && r[1..] == KeepMatching(accounts[1..], query);
      }
    }
  }

  /** Filtering twice with the same query is filtering once. */
  lemma FilterPatientsIdempotent(accounts: seq<string>, searchQuery: string)
    ensures FilterPatients(FilterPatients(accounts, searchQuery), searchQuery) == FilterPatients(accounts, searchQuery)
  {
    KeepMatchingIdempotent(accounts, Lower(Trim(searchQuery)));
  }

  lemma {:induction false} RecordKeysDistinct(keys: seq<string>)
    requires Distinct(keys)
    ensures Distinct(RecordKeys(keys))
  {
    if keys != [] {
      assert keys == [keys[0]] + keys[1..];
      RecordKeysDistinct(keys[1..]);
      assert keys[0] !in keys[1..];
    }
  }

  /**
   * One patient's entry of `reversedPatientRecords`: the record keys, newest
   * first, each with its value; the control keys are filtered out.
   */
  function ReversedPatientRecord(o: Obj): Obj {
    var ks := SortDescending(RootLocale, RecordKeys(o.keys));
    Obj(ks, map k | k in ks && k in o.vals :: o.vals[k])
  }

  function ReversedPatientRecords(records: map<string, Obj>): (r: map<string, Obj>)
    ensures forall p :: p in r <==> p in records
  {
    map p | p in records :: ReversedPatientRecord(records[p])
  }

  /**
   * The newest-first view of a record is a well-formed object whose keys are
   * the record's date keys, each once, in descending order, with the values
   * the record holds.
   */
  lemma ReversedPatientRecordProperties(o: Obj)
    requires o.WF()
    ensures var r := ReversedPatientRecord(o);
      r.WF() && Descending(RootLocale, r.keys) && multiset(r.keys) == multiset(RecordKeys(o.keys))
      && (forall k :: r.Get(k).Some? <==> o.Get(k).Some? && !IsControlKey(k))
      && (forall k :: r.Get(k).Some? ==> r.Get(k) == o.Get(k))
  {
    var ks := RecordKeys(o.keys);
    var d := SortDescending(RootLocale, ks);
    assert Distinct(d) by {
      RecordKeysDistinct(o.keys);
      SortDistinct(RootLocale, ks);
      ReverseDistinct(Sort(RootLocale, ks));
    }
    assert Descending(RootLocale, d) && multiset(d) == multiset(ks) by {
      SortDescendingCorrect(RootLocale, ks);
    }
    forall k ensures k in d <==> k in ks {
      assert k in multiset(d) <==> k in multiset(ks);
    }
  }

  /**
   * Month keys are not padded, so the newest-first order rests on `_` ranking
   * below the digits: 1 October comes before 15 January, where a code point
   * comparison would put them the other way round.
   */
  lemma UnpaddedMonthOrder()
    ensures SortDescending(RootLocale, ["2024_1_15", "2024_10_01"]) == ["2024_10_01", "2024_1_15"]
    ensures SortDescending(CodePoint, ["2024_1_15", "2024_10_01"]) == ["2024_1_15", "2024_10_01"]
  {
    var jan, oct := "2024_1_15", "2024_10_01";
    assert jan == "2024_1" + "_15" && oct == "2024_1" + "0_01";
    LexLePrefix(RootLocale, "2024_1", "_15", "0_01");
    LexLePrefix(CodePoint, "2024_1", "_15", "0_01");
    assert LexLe(RootLocale, jan, oct) && !LexLe(CodePoint, jan, oct);
    TwoSorted(RootLocale, jan, oct);
    TwoSorted(CodePoint, jan, oct);
  }

  /** `getFirstAndLastDates`: the first and the last date key in the stored order, `_` shown as `/`. */
  function FirstAndLastDates(o: Obj): string {
    DateSpan(RecordKeys(o.keys))
  }

  /** The span of a sequence of date keys: `無紀錄` for none, otherwise the first and the last key, `_` shown as `/`. */
  function DateSpan(ks: seq<string>): string {
    if ks == [] then "無紀錄"
    else ReplaceChar(ks[0], '_', '/') + " ~ " + ReplaceChar(ks[|ks| - 1], '_', '/')
  }

  /** A date key the clients write is shown as `year/month/day`, the day padded to two digits. */
  lemma DateKeyShown(year: nat, month: nat, day: nat)
    requires day < 100
    ensures ReplaceChar(DateKey(year, month, day), '_', '/') == ShownDate((year, month, day))
  {
    var y, m, d := NatToString(year), NatToString(month), Pad2(day);
    Pad2Value(day);
    assert '_' !in y && '_' !in m && '_' !in d;
    ReplaceCharAbsent(y, '_', '/');
    ReplaceCharAbsent(m, '_', '/');
    ReplaceCharAbsent(d, '_', '/');
    ReplaceCharConcat(y, "_", '_', '/');
    ReplaceCharConcat(y + "_", m, '_', '/');
    ReplaceCharConcat(y + "_" + m, "_", '_', '/');
    ReplaceCharConcat(y + "_" + m + "_", d, '_', '/');
    assert ReplaceChar("_", '_', '/') == "/";
  }

  /** `year/month/day` as the span shows a date, the day padded to two digits. */
  function ShownDate(date: (nat, nat, nat)): string {
    NatToString(date.0) + "/" + NatToString(date.1) + "/" + Pad2(date.2)
  }

  /** With no date key the span reads `無紀錄`; otherwise it runs from the first stored key to the last. */
  lemma FirstAndLastDatesOfKeys(o: Obj, first: (nat, nat, nat), last: (nat, nat, nat))
    requires first.2 < 100 && last.2 < 100
    ensures RecordKeys(o.keys) == [] ==> FirstAndLastDates(o) == "無紀錄"
    ensures var ks := RecordKeys(o.keys);
      ks != [] && ks[0] == DateKey(first.0, first.1, first.2) && ks[|ks| - 1] == DateKey(last.0, last.1, last.2) ==>
        FirstAndLastDates(o) == ShownDate(first) + " ~ " + ShownDate(last)
  {
    var ks := RecordKeys(o.keys);
    DateSpanShown(ks, first, last);
  }

  lemma DateSpanShown(ks: seq<string>, first: (nat, nat, nat), last: (nat, nat, nat))
    requires first.2 < 100 && last.2 < 100
    ensures ks == [] ==> DateSpan(ks) == "無紀錄"
    ensures ks != [] && ks[0] == DateKey(first.0, first.1, first.2) && ks[|ks| - 1] == DateKey(last.0, last.1, last.2) ==>
      DateSpan(ks) == ShownDate(first) + " ~ " + ShownDate(last)
  {
    if ks != [] && ks[0] == DateKey(first.0, first.1, first.2) && ks[|ks| - 1] == DateKey(last.0, last.1, last.2) {
      DateKeyShown(first.0, first.1, first.2);
      DateKeyShown(last.0, last.1, last.2);
      assert (first.0, first.1, first.2) == first && (last.0, last.1, last.2) == last;
    }
  }

  // ---------------------------------------------------------------- the restriction note

  /**
   * `restrictionText[p]`: empty (`NoNote`), `undefined` (`Unset`, a valid
   * limit with neither box checked), or one of the three sentences, which show
   * the limit as stored, untrimmed.
   */
  datatype MonitorNote = NoNote | Unset | FoodAndWaterNote(limit: string) | FoodNote(limit: string) | WaterNote(limit: string)

  /** `String(record.limitAmount).trim()`. */
  function LimitText(o: Obj): string {
    Trim(JsString(o.Get("limitAmount")))
  }

  predicate FoodBox(o: Obj) {
    Truthy(o.Get("foodCheckboxChecked"))
  }

  predicate WaterBox(o: Obj) {
    Truthy(o.Get("waterCheckboxChecked"))
  }

  /** `updateRestrictionText`. */
  function RestrictionNote(o: Obj): MonitorNote {
    var limit := LimitText(o);
    if IsNaNString(limit) || limit == [] then NoNote
    else
      var shown := JsString(o.Get("limitAmount"));
      if FoodBox(o) && WaterBox(o) then FoodAndWaterNote(shown)
      else if FoodBox(o) then FoodNote(shown)
      else if WaterBox(o) then WaterNote(shown)
      else Unset
  }

  /** A limit stored as a numeral is shown as that numeral, under the boxes that are checked. */
  lemma RestrictionNoteOfNumeral(o: Obj, n: nat)
    requires o.Get("limitAmount") == Some(StrV(NatToString(n)))
    ensures FoodBox(o) && WaterBox(o) ==> RestrictionNote(o) == FoodAndWaterNote(NatToString(n))
    ensures FoodBox(o) && !WaterBox(o) ==> RestrictionNote(o) == FoodNote(NatToString(n))
    ensures !FoodBox(o) && WaterBox(o) ==> RestrictionNote(o) == WaterNote(NatToString(n))
    ensures !FoodBox(o) && !WaterBox(o) ==> RestrictionNote(o) == Unset
  {
    DigitsUntrimmed(NatToString(n));
    DecimalReadsBack(n);
  }

  /** A blank or non-numeric limit clears the note, whatever the boxes say. */
  lemma RestrictionNoteCleared(o: Obj)
    ensures RestrictionNote(o) == NoNote <==> LimitText(o) == [] || IsNaNString(LimitText(o))
  {
  }

  // ---------------------------------------------------------------- closing the restriction editor

  /** The outcome of an attempt to close the restriction editor: `Close`, or the alert that refuses it. */
  datatype Verdict = Close | CheckAndEnterNumber | CheckAnOption | EnterNumber | EnterPositiveInteger

  /** The checks `toggleRestrictionEdit` makes before it closes an open editor. */
  function CloseVerdict(o: Obj): Verdict {
    var limit := LimitText(o);
    if !FoodBox(o) && !WaterBox(o) then
      if IsNaNString(limit) then CheckAndEnterNumber
      else if limit != [] then CheckAnOption
      else Close
    else if IsNaNString(limit) || limit == [] then EnterNumber
    else if StartsWith(limit, "-") || StartsWith(limit, ".") then EnterPositiveInteger
    else Close
  }

  /**
   * With no box checked the editor closes exactly when the limit is blank; with
   * a box checked, exactly when the limit is a number that does not start with
   * `-` or `.`.
   */
  lemma CloseVerdictCases(o: Obj)
    ensures !FoodBox(o) && !WaterBox(o) ==> (CloseVerdict(o) == Close <==> LimitText(o) == [])
    ensures FoodBox(o) || WaterBox(o) ==>
      (CloseVerdict(o) == Close <==>
        LimitText(o) != [] && !IsNaNString(LimitText(o)) && !StartsWith(LimitText(o), "-") && !StartsWith(LimitText(o), "."))
  {
    var t: string := [];
    assert Trim(t) == [];
  }

  /** Closing with a box checked always leaves a sentence showing the stored limit. */
  lemma ClosedRestrictionIsShown(o: Obj)
    requires FoodBox(o) || WaterBox(o)
    requires CloseVerdict(o) == Close
    ensures RestrictionNote(o).FoodAndWaterNote? || RestrictionNote(o).FoodNote? || RestrictionNote(o).WaterNote?
    ensures RestrictionNote(o).limit == JsString(o.Get("limitAmount"))
  {
  }

  /**
   * A limit with a fractional part, such as `1.5`, is accepted as long as it
   * starts with a digit: a whole number is not enforced.
   */
  lemma CloseAcceptsNonIntegers(o: Obj, w: string, f: string)
    requires FoodBox(o) || WaterBox(o)
    requires w != [] && f != [] && AllDigits(w) && AllDigits(f)
    requires o.Get(LimitAmountKey) == Some(StrV(w + "." + f))
    ensures CloseVerdict(o) == Close
  {
    var s := w + "." + f;
    DigitsDotDigits(w, f);
    assert LimitText(o) == s;
    assert s[..1] == [w[0]] && IsDigit(w[0]);
  }

  // ---------------------------------------------------------------- filling in the control keys

  /** `if (!(k in o)) o[k] = default`. */
  function FillKey(o: Obj, k: string): Obj {
    if k in o.vals then o else o.Put(k, DefaultControl(k))
  }

  /** Puts each key of `ks` that `o` lacks at its default, in the order of `ks`. */
  function FillKeys(o: Obj, ks: seq<string>): Obj
    decreases |ks|
  {
    if ks == [] then o else FillKeys(FillKey(o, ks[0]), ks[1..])
  }

  /** Some key of `ks` is missing from `o`. */
  predicate Lacks(o: Obj, ks: seq<string>) {
    exists k :: k in ks && k !in o.vals
  }

  lemma {:induction false} FillKeysProperties(o: Obj, ks: seq<string>)
    ensures var r := FillKeys(o, ks);
      && (o.WF() ==> r.WF())
      && (forall k :: k in ks ==> k in r.vals)
      && (forall k :: k in o.vals ==> r.Get(k) == o.Get(k))
      && (forall k :: k !in o.vals && k in ks ==> r.Get(k) == Some(DefaultControl(k)))
      && (forall k :: k !in o.vals && k !in ks ==> k !in r.vals)
    decreases |ks|
  {
    if ks != [] {
      var o' := FillKey(o, ks[0]);
      FillKeysProperties(o', ks[1..]);
      var r := FillKeys(o', ks[1..]);
      assert r == FillKeys(o, ks);
      forall k | k in ks ensures k in r.vals {
        if k != ks[0] { assert k in ks[1..]; }
      }
      forall k | k !in o.vals && k in ks ensures r.Get(k) == Some(DefaultControl(k)) {
        if k != ks[0] { assert k in ks[1..]; }
      }
      forall k | k !in o.vals && k !in ks ensures k !in r.vals {
        assert k !in ks[1..];
      }
    }
  }

  /** The keys the record had keep their places; new keys go after them. */
  lemma {:induction false} FillKeysOrder(o: Obj, ks: seq<string>)
    ensures |o.keys| <= |FillKeys(o, ks).keys| && FillKeys(o, ks).keys[..|o.keys|] == o.keys
    decreases |ks|
  {
    if ks != [] {
      var o' := FillKey(o, ks[0]);
      FillKeysOrder(o', ks[1..]);
      var r := FillKeys(o', ks[1..]);
      assert |o.keys| <= |o'.keys| && o'.keys[..|o.keys|] == o.keys;
      assert r.keys[..|o.keys|] == r.keys[..|o'.keys|][..|o.keys|];
    }
  }

  /** A record that has every key of `ks` is left as it is. */
  lemma {:induction false} FillKeysComplete(o: Obj, ks: seq<string>)
    requires !Lacks(o, ks)
    ensures FillKeys(o, ks) == o
    decreases |ks|
  {
    if ks != [] {
      assert ks[0] in o.vals;
      assert !Lacks(o, ks[1..]) by {
        forall k | k in ks[1..] ensures k in o.vals { assert k in ks; }
      }
      FillKeysComplete(o, ks[1..]);
    }
  }

  /** Filling a second time changes nothing, and the record changes exactly when a key was missing. */
  lemma FillKeysSettles(o: Obj, ks: seq<string>)
    ensures !Lacks(FillKeys(o, ks), ks) && FillKeys(FillKeys(o, ks), ks) == FillKeys(o, ks)
    ensures Lacks(o, ks) <==> FillKeys(o, ks) != o
  {
    var r := FillKeys(o, ks);
    FillKeysProperties(o, ks);
    FillKeysComplete(r, ks);
    if !Lacks(o, ks) {
      FillKeysComplete(o, ks);
    }
    if Lacks(o, ks) {
      var k :| k in ks && k !in o.vals;
      assert k in r.vals;
    }
  }

  /** `processFetchedData`'s filling of one record: each missing control key at its default, in the order of `ControlKeys`. */
  function FillControls(o: Obj): Obj {
    FillKey(FillKey(FillKey(FillKey(o, IsEditingKey), LimitAmountKey), FoodCheckboxKey), WaterCheckboxKey)
  }

  /** The filling is the key-by-key loop over `ControlKeys`. */
  lemma FillControlsIsFillKeys(o: Obj)
    ensures FillControls(o) == FillKeys(o, ControlKeys)
  {
    var ks := ControlKeys;
    assert ks[1..][1..][1..][1..] == [];
  }

  /** Some control key is missing, so the filled record is sent back. */
  predicate LacksControl(o: Obj) {
    Lacks(o, ControlKeys)
  }

  /**
   * Filling gives every control key a value, keeps every value the record had
   * and its key order, adds nothing else, changes the record exactly when a
   * control key was missing, and is idempotent.
   */
  lemma FillControlsProperties(o: Obj)
    ensures var r := FillControls(o);
      && (o.WF() ==> r.WF())
      && (forall c :: IsControlKey(c) ==> r.Get(c).Some?)
      && (forall k :: o.Get(k).Some? ==> r.Get(k) == o.Get(k))
      && (forall c :: IsControlKey(c) && o.Get(c).None? ==> r.Get(c) == Some(DefaultControl(c)))
      && (forall k :: !IsControlKey(k) ==> r.Get(k) == o.Get(k))
      && r.keys[..|o.keys|] == o.keys
      && !LacksControl(r)
      && (LacksControl(o) <==> r != o)
      && FillControls(r) == r
  {
    FillControlsIsFillKeys(o);
    FillControlsIsFillKeys(FillControls(o));
    FillKeysProperties(o, ControlKeys);
    FillKeysOrder(o, ControlKeys);
    FillKeysSettles(o, ControlKeys);
  }

  predicate RecordsWF(records: map<string, Obj>) {
    forall p :: p in records ==> records[p].WF()
  }

  /** Every listed account has a record. */
  predicate Listed(records: map<string, Obj>, ps: seq<string>) {
    forall i :: 0 <= i < |ps| ==> ps[i] in records
  }

  lemma FillControlsIdempotent(o: Obj)
    ensures FillControls(FillControls(o)) == FillControls(o) && !LacksControl(FillControls(o))
  {
    FillControlsIsFillKeys(o);
    FillControlsIsFillKeys(FillControls(o));
    FillKeysSettles(o, ControlKeys);
  }

  /**
   * The records once `processFetchedData` has visited the accounts `ps`: each
   * listed record filled with its missing control keys, every other as fetched.
   */
  function FilledRecords(records: map<string, Obj>, ps: seq<string>): (r: map<string, Obj>)
    ensures r.Keys == records.Keys
  {
    map p | p in records :: if p in ps then FillControls(records[p]) else records[p]
  }

  /** Filling keeps every record a well-formed object. */
  lemma FilledRecordsWF(records: map<string, Obj>, ps: seq<string>)
    requires RecordsWF(records)
    ensures RecordsWF(FilledRecords(records, ps))
  {
    forall p | p in records {
      FillControlsProperties(records[p]);
    }
  }

  /** `base` with the entries of `vals` for the keys in `ps` written over it. */
  function Overlay<V>(base: map<string, V>, ps: seq<string>, vals: map<string, V>): (r: map<string, V>)
    requires forall i :: 0 <= i < |ps| ==> ps[i] in vals
    ensures forall p :: p in r <==> p in base || p in ps
  {
    map p | p in base.Keys + (set q | q in ps) :: if p in ps then vals[p] else base[p]
  }

  /** Writing over one more key is a map update. */
  lemma OverlayStep<V>(base: map<string, V>, ps: seq<string>, vals: map<string, V>, i: nat)
    requires (forall j :: 0 <= j < |ps| ==> ps[j] in vals) && i < |ps|
    ensures Overlay(base, ps[..i + 1], vals) == Overlay(base, ps[..i], vals)[ps[i] := vals[ps[i]]]
  {
    var a, b := Overlay(base, ps[..i + 1], vals), Overlay(base, ps[..i], vals)[ps[i] := vals[ps[i]]];
    assert ps[..i + 1] == ps[..i] + [ps[i]];
    forall q ensures q in a <==> q in b {
      assert q in ps[..i + 1] <==> q in ps[..i] || q == ps[i];
    }
    forall q | q in a ensures a[q] == b[q] {
      assert q in ps[..i + 1] <==> q in ps[..i] || q == ps[i];
    }
  }

  /** The note each fetched record has once it is filled. */
  function FilledNoteOf(records: map<string, Obj>): (r: map<string, MonitorNote>)
    ensures r.Keys == records.Keys
  {
    map p | p in records :: RestrictionNote(FillControls(records[p]))
  }

  /** The restriction notes once the accounts `ps` are visited: each listed account has the note of its filled record. */
  function FilledNotes(notes: map<string, MonitorNote>, records: map<string, Obj>, ps: seq<string>): (r: map<string, MonitorNote>)
    requires Listed(records, ps)
    ensures forall p :: p in r <==> p in notes || p in ps
    ensures forall p :: p in ps ==> r[p] == RestrictionNote(FillControls(records[p]))
    ensures forall p :: p in notes && p !in ps ==> r[p] == notes[p]
  {
    Overlay(notes, ps, FilledNoteOf(records))
  }

  /** The update sent back for account `p` on its first visit: its filled record, when the fetched one lacked a control key. */
  function FillRequest(records: map<string, Obj>, p: string): seq<Request>
    requires p in records
  {
    if LacksControl(records[p]) then [UpdateRecordRequest(p, Some(FillControls(records[p])))] else []
  }

  /** The updates `processFetchedData` sends while visiting `ps`, in order; a repeated account is already filled and sends nothing. */
  function FillRequests(records: map<string, Obj>, ps: seq<string>): seq<Request>
    requires Listed(records, ps)
  {
    if ps == [] then []
    else
      var q := ps[|ps| - 1];
      FillRequests(records, ps[..|ps| - 1]) + (if q in ps[..|ps| - 1] then [] else FillRequest(records, q))
  }

  /** Visiting one more account fills its record. */
  lemma FilledRecordsStep(records: map<string, Obj>, ps: seq<string>, i: nat)
    requires Listed(records, ps) && i < |ps|
    ensures FilledRecords(records, ps[..i + 1]) == FilledRecords(records, ps[..i])[ps[i] := FillControls(records[ps[i]])]
  {
    var a, b := FilledRecords(records, ps[..i + 1]), FilledRecords(records, ps[..i])[ps[i] := FillControls(records[ps[i]])];
    assert ps[..i + 1] == ps[..i] + [ps[i]];
    forall q | q in records ensures a[q] == b[q] {
      assert q in ps[..i + 1] <==> q in ps[..i] || q == ps[i];
    }
  }

  /** Visiting one more account sends its update, unless it was visited before. */
  lemma FillRequestsStep(records: map<string, Obj>, ps: seq<string>, i: nat)
    requires Listed(records, ps) && i < |ps|
    ensures FillRequests(records, ps[..i + 1])
      == FillRequests(records, ps[..i]) + (if ps[i] in ps[..i] then [] else FillRequest(records, ps[i]))
  {
    assert ps[..i + 1][..i] == ps[..i];
  }

  /** The record met on a visit fills to the fetched record's filling, and lacks a control key only on the first visit of an account whose fetched record did. */
  lemma FillVisit(records: map<string, Obj>, ps: seq<string>, i: nat)
    requires Listed(records, ps) && i < |ps|
    ensures var o := FilledRecords(records, ps[..i])[ps[i]];
      FillControls(o) == FillControls(records[ps[i]])
      && (LacksControl(o) <==> ps[i] !in ps[..i] && LacksControl(records[ps[i]]))
  {
    FillControlsIdempotent(records[ps[i]]);
  }

  /** Visiting one more account renews its note. */
  lemma FilledNotesStep(records: map<string, Obj>, notes: map<string, MonitorNote>, ps: seq<string>, i: nat)
    requires Listed(records, ps) && i < |ps|
    ensures FilledNotes(notes, records, ps[..i + 1])
      == FilledNotes(notes, records, ps[..i])[ps[i] := RestrictionNote(FillControls(records[ps[i]]))]
  {
    OverlayStep(notes, ps, FilledNoteOf(records), i);
  }

  /** One visit of the loop takes the closed forms over `ps[..i]` to those over `ps[..i + 1]`. */
  lemma FillAdvance(records: map<string, Obj>, notes0: map<string, MonitorNote>, ps: seq<string>, i: nat,
                    recs: map<string, Obj>, notes: map<string, MonitorNote>, reqs: seq<Request>, r: Obj, modified: bool)
    requires Listed(records, ps) && i < |ps|
    requires recs == FilledRecords(records, ps[..i])
    requires notes == FilledNotes(notes0, records, ps[..i])
    requires reqs == FillRequests(records, ps[..i])
    requires r == FillKeys(recs[ps[i]], ControlKeys) && modified == Lacks(recs[ps[i]], ControlKeys)
    ensures recs[ps[i] := r] == FilledRecords(records, ps[..i + 1])
    ensures notes[ps[i] := RestrictionNote(r)] == FilledNotes(notes0, records, ps[..i + 1])
    ensures reqs + (if modified then [UpdateRecordRequest(ps[i], Some(r))] else []) == FillRequests(records, ps[..i + 1])
  {
    FillControlsIsFillKeys(recs[ps[i]]);
    FillVisit(records, ps, i);
    FilledRecordsStep(records, ps, i);
    FillRequestsStep(records, ps, i);
    FilledNotesStep(records, notes0, ps, i);
  }

  /**
   * Every update the fill sends is for a listed account whose fetched record
   * lacked a control key, and carries that record filled; every such account
   * gets exactly one, so there are no more updates than listed accounts.
   */
  lemma FillRequestsProperties(records: map<string, Obj>, ps: seq<string>)
    requires Listed(records, ps)
    ensures var r := FillRequests(records, ps);
      && |r| <= |ps|
      && (forall i :: 0 <= i < |r| ==>
            r[i].UpdateRecordRequest? && r[i].patient in ps && r[i].patient in records
            && LacksControl(records[r[i].patient]) && r[i].record == Some(FillControls(records[r[i].patient])))
      && (forall p :: p in ps && LacksControl(records[p]) ==> UpdateRecordRequest(p, Some(FillControls(records[p]))) in r)
      && (forall i, j :: 0 <= i < j < |r| ==> r[i].patient != r[j].patient)
  {
    FillRequestsSound(records, ps);
    FillRequestsComplete(records, ps);
    FillRequestsDistinct(records, ps);
  }

  lemma {:induction false} FillRequestsSound(records: map<string, Obj>, ps: seq<string>)
    requires Listed(records, ps)
    ensures var r := FillRequests(records, ps);
      && |r| <= |ps|
      && forall i :: 0 <= i < |r| ==>
            r[i].UpdateRecordRequest? && r[i].patient in ps && r[i].patient in records
            && LacksControl(records[r[i].patient]) && r[i].record == Some(FillControls(records[r[i].patient]))
  {
    if ps != [] {
      var q, rest := ps[|ps| - 1], ps[..|ps| - 1];
      FillRequestsSound(records, rest);
      var a := FillRequests(records, rest);
      var r := FillRequests(records, ps);
      assert r == a + (if q in rest then [] else FillRequest(records, q));
      forall i | 0 <= i < |r|
        ensures r[i].UpdateRecordRequest? && r[i].patient in ps && r[i].patient in records
          && LacksControl(records[r[i].patient]) && r[i].record == Some(FillControls(records[r[i].patient]))
      {
        if i < |a| {
          assert r[i] == a[i] && a[i].patient in rest;
        } else {
          assert r[i] == UpdateRecordRequest(q, Some(FillControls(records[q])));
        }
      }
    }
  }

  lemma {:induction false} FillRequestsComplete(records: map<string, Obj>, ps: seq<string>)
    requires Listed(records, ps)
    ensures var r := FillRequests(records, ps);
      forall p :: p in ps && LacksControl(records[p]) ==> UpdateRecordRequest(p, Some(FillControls(records[p]))) in r
  {
    if ps != [] {
      var q, rest := ps[|ps| - 1], ps[..|ps| - 1];
      FillRequestsComplete(records, rest);
      var a := FillRequests(records, rest);
      var r := FillRequests(records, ps);
      assert r == a + (if q in rest then [] else FillRequest(records, q));
      forall p | p in ps && LacksControl(records[p])
        ensures UpdateRecordRequest(p, Some(FillControls(records[p]))) in r
      {
        assert p in rest || p == q;
        if p in rest {
          assert UpdateRecordRequest(p, Some(FillControls(records[p]))) in a;
        }
      }
    }
  }

  lemma {:induction false} FillRequestsDistinct(records: map<string, Obj>, ps: seq<string>)
    requires Listed(records, ps)
    ensures var r := FillRequests(records, ps);
      forall i, j :: 0 <= i < j < |r| ==> r[i].UpdateRecordRequest? && r[j].UpdateRecordRequest? && r[i].patient != r[j].patient
  {
    if ps != [] {
      var q, rest := ps[|ps| - 1], ps[..|ps| - 1];
      FillRequestsDistinct(records, rest);
      FillRequestsSound(records, rest);
      var a := FillRequests(records, rest);
      var r := FillRequests(records, ps);
      assert r == a + (if q in rest then [] else FillRequest(records, q));
      FillRequestsSound(records, ps);
      forall i, j | 0 <= i < j < |r| ensures r[i].UpdateRecordRequest? && r[j].UpdateRecordRequest? && r[i].patient != r[j].patient {
        if j >= |a| {
          assert r[i] == a[i] && r[j].patient == q && a[i].patient in rest;
        } else {
          assert r[i] == a[i] && r[j] == a[j];
        }
      }
    }
  }


  /**
   * After a fetch is processed every listed account's record has all four
   * control keys, keeps every value it was fetched with, and gains nothing but
   * control keys; the other records are as fetched.
   */
  lemma FetchedRecordsHaveControls(records: map<string, Obj>, ps: seq<string>, p: string)
    requires p in records
    ensures var r := FilledRecords(records, ps)[p];
      && (p in ps ==> forall c :: IsControlKey(c) ==> r.Get(c).Some?)
      && (forall k :: records[p].Get(k).Some? ==> r.Get(k) == records[p].Get(k))
      && (forall k :: !IsControlKey(k) ==> r.Get(k) == records[p].Get(k))
      && (p !in ps ==> r == records[p])
  {
    FillControlsProperties(records[p]);
  }

  // ---------------------------------------------------------------- transfer checks

  /** The outcome of the checks `transferPatientData` makes before it asks for confirmation. */
  datatype TransferCheck = BlankTarget | NoSuchTarget | TargetNotMonitored | TargetHasData | Ready

  /** `isOnlyDefaultKeys`: exactly four keys, each a control key. */
  predicate OnlyControlKeys(keys: seq<string>) {
    |keys| == |ControlKeys| && forall i :: 0 <= i < |keys| ==> IsControlKey(keys[i])
  }

  function TransferPrecheck(to: string, monitored: seq<string>, unmonitored: seq<string>, records: map<string, Obj>): TransferCheck {
    if Trim(to) == [] then BlankTarget
    else if to !in monitored && to !in unmonitored then NoSuchTarget
    else if to in unmonitored then TargetNotMonitored
    else if to in records && !OnlyControlKeys(records[to].keys) then TargetHasData
    else Ready
  }

  /**
   * A transfer goes ahead exactly when the target is a non-blank, monitored
   * account not also listed as unmonitored, whose record, if any, holds only
   * control keys. The source account is not consulted: a transfer to itself
   * passes.
   */
  lemma TransferPrecheckReady(to: string, monitored: seq<string>, unmonitored: seq<string>, records: map<string, Obj>)
    ensures TransferPrecheck(to, monitored, unmonitored, records) == Ready <==>
      Trim(to) != [] && to in monitored && to !in unmonitored
      && (to in records ==> OnlyControlKeys(records[to].keys))
  {
  }

  lemma {:induction false} DistinctCard(s: seq<string>)
    requires Distinct(s)
    ensures |set x | x in s| == |s|
  {
    if s != [] {
      assert s == [s[0]] + s[1..];
      DistinctCard(s[1..]);
      assert (set x | x in s) == (set x | x in s[1..]) + {s[0]};
      assert s[0] !in (set x | x in s[1..]);
    }
  }

  /** A well-formed target that passes the check has exactly the four control keys. */
  lemma OnlyControlKeysExact(o: Obj)
    requires o.WF() && OnlyControlKeys(o.keys)
    ensures forall c :: IsControlKey(c) <==> o.Get(c).Some?
  {
    var ks := set x | x in o.keys;
    var cs := set x | x in ControlKeys;
    DistinctCard(o.keys);
    assert Distinct(ControlKeys);
    DistinctCard(ControlKeys);
    assert ks <= cs;
    assert |cs - ks| == |cs| - |ks| == 0;
    assert cs == ks;
    forall c ensures IsControlKey(c) <==> o.Get(c).Some? {
      assert IsControlKey(c) <==> c in cs;
      assert c in o.vals <==> c in ks;
    }
  }

  // ---------------------------------------------------------------- editing an entry

  /** A cell of the record editor as it is left: emptied, or holding a number. */
  datatype Cell = Blank | Typed(n: int)

  /** An emptied cell is set to 0 before the sums are adjusted. */
  function CellValue(c: Cell): int {
    match c
    case Blank => 0
    case Typed(n) => n
  }

  datatype Cells = Cells(food: Cell, water: Cell, urination: Cell, defecation: Cell) {
    function Get(f: Field): Cell {
      match f
      case Food => food
      case Water => water
      case Urination => urination
      case Defecation => defecation
    }
  }

  /** The edited entry: its time, and each cell's number. */
  function FilledEntry(e: Entry, cells: Cells): (r: Entry)
    ensures r.time == e.time && forall f :: r.Get(f) == CellValue(cells.Get(f))
  {
    Entry(e.time, CellValue(cells.food), CellValue(cells.water), CellValue(cells.urination), CellValue(cells.defecation))
  }

  /** `dietaryItems.every(item => record[item] === 0)`. */
  predicate AllZero(e: Entry) {
    forall f :: e.Get(f) == 0
  }

  lemma AllZeroFields(e: Entry)
    ensures AllZero(e) <==> e.food == 0 && e.water == 0 && e.urination == 0 && e.defecation == 0
  {
    if e.food == 0 && e.water == 0 && e.urination == 0 && e.defecation == 0 {
      forall f ensures e.Get(f) == 0 {
      }
    } else {
      assert e.Get(Food) != 0 || e.Get(Water) != 0 || e.Get(Urination) != 0 || e.Get(Defecation) != 0;
    }
  }

  /**
   * Closing the record editor on entry `i`: emptied cells become 0, and each
   * sum moves by the entry's new amount minus the snapshot `temp` taken when
   * the editor was opened.
   */
  method CloseEdit(b: Bucket, i: nat, cells: Cells, temp: Entry) returns (r: Bucket)
    requires i < |b.data|
    ensures r == Edited(b, i, FilledEntry(b.data[i], cells), temp)
  {
    var e := b.data[i];
    r := b;
    for j := 0 to |Fields|
      invariant r.data == b.data && r.count == b.count && r.recordDate == b.recordDate && r.weight == b.weight
      invariant e.time == b.data[i].time
      invariant forall k :: 0 <= k < j ==>
        e.Get(Fields[k]) == CellValue(cells.Get(Fields[k])) && r.Sum(Fields[k]) == b.Sum(Fields[k]) + e.Get(Fields[k]) - temp.Get(Fields[k])
      invariant forall k :: j <= k < |Fields| ==> r.Sum(Fields[k]) == b.Sum(Fields[k])
    {
      var f := Fields[j];
      e := e.Set(f, CellValue(cells.Get(f)));
      r := r.WithSum(f, r.Sum(f) + e.Get(f) - temp.Get(f));
    }
    var a := FilledEntry(b.data[i], cells);
    assert Fields[0] == Food && Fields[1] == Water && Fields[2] == Urination && Fields[3] == Defecation;
    assert e == WithAmounts(b.data[i], a);
    r := r.(data := b.data[i := e]);
    assert r.Sum(Food) == Edited(b, i, a, temp).Sum(Food);
    assert r.Sum(Water) == Edited(b, i, a, temp).Sum(Water);
    assert r.Sum(Urination) == Edited(b, i, a, temp).Sum(Urination);
    assert r.Sum(Defecation) == Edited(b, i, a, temp).Sum(Defecation);
  }

  /** Closing on the entry the snapshot was taken from keeps a consistent bucket consistent. */
  lemma CloseEditConsistent(b: Bucket, i: nat, cells: Cells, temp: Entry)
    requires i < |b.data| && Consistent(b)
    requires forall f :: temp.Get(f) == b.data[i].Get(f)
    ensures Consistent(Edited(b, i, FilledEntry(b.data[i], cells), temp))
  {
    EditedConsistent(b, i, FilledEntry(b.data[i], cells), temp);
  }

  /**
   * The editor closes on whichever entry was clicked: a snapshot taken from
   * another entry makes the sums disagree with the entries.
   */
  lemma CloseEditOnOtherEntry()
    ensures var b := Bucket([Entry("08:00", 100, 0, 0, 0), Entry("09:00", 50, 0, 0, 0)], 2, "1/1", 150, 0, 0, 0, "NaN");
      Consistent(b)
      && !Consistent(Edited(b, 1, FilledEntry(b.data[1], Cells(Typed(50), Typed(0), Typed(0), Typed(0))), b.data[0]))
  {
    var x, y := Entry("08:00", 100, 0, 0, 0), Entry("09:00", 50, 0, 0, 0);
    var b := Bucket([x, y], 2, "1/1", 150, 0, 0, 0, "NaN");
    forall f ensures b.Sum(f) == Total(b.data, f) {
      TotalPair(x, y, f);
    }
    var a := FilledEntry(y, Cells(Typed(50), Typed(0), Typed(0), Typed(0)));
    EditedSums(b, 1, a, x);
    assert Edited(b, 1, a, x).data == [x, WithAmounts(y, a)];
    TotalPair(x, WithAmounts(y, a), Food);
  }

  lemma TotalPair(x: Entry, y: Entry, f: Field)
    ensures Total([x, y], f) == x.Get(f) + y.Get(f)
  {
    assert [x, y][..1] == [x];
    TotalSingle(x, f);
  }

  // ---------------------------------------------------------------- replies and pending state

  /** A `FETCH_MONITORING_PATIENTS` reply: the message, `patient_records` and `patient_accounts`. */
  datatype FetchReply = FetchReply(message: Message, records: map<string, Obj>, accounts: seq<(string, string)>) {
    /** The backend lists a record for every monitored account. */
    predicate Usable() {
      forall i :: 0 <= i < |accounts| ==> accounts[i].0 in records
    }
  }

  /** A `FETCH_UNMONITORED_PATIENTS` reply: the message and `unmonitored_patients` as `[id, account]` rows. */
  datatype UnmonitoredReply = UnmonitoredReply(message: Message, rows: seq<(int, string)>)

  /** The accounts of the unmonitored rows. */
  function UnmonitoredNames(rows: seq<(int, string)>): (r: seq<string>)
    ensures |r| == |rows| && forall i :: 0 <= i < |rows| ==> r[i] == rows[i].1
  {
    seq(|rows|, i requires 0 <= i < |rows| => rows[i].1)
  }

  /** The entry `removeRecord` captured before it asked for confirmation. */
  datatype Removal = Removal(patient: string, date: string, index: nat, record: Entry)

  // ---------------------------------------------------------------- the client

  class MonitorApp {
    var account: string
    var password: string
    var authenticated: bool
    var patientRecords: map<string, Obj>
    var patientAccounts: seq<(string, string)>
    var unmonitoredPatients: seq<string>
    var filteredPatientAccounts: seq<string>
    var restrictionText: map<string, MonitorNote>
    var editingRecordIndex: int
    var editingRecordPatientAccount: string
    var tempPatientRecord: Entry
    var isEditingRestriction: bool
    var currentEditingPatient: string
    var removingRecord: bool
    var confirming: bool
    /** The entry a removal dialog is open for. */
    var removal: Option<Removal>
    /** The three-second refresh interval is set. */
    var syncArmed: bool
    var sent: seq<Request>

    predicate Valid()
      reads this
    {
      syncArmed ==> authenticated
    }

    constructor ()
      ensures Valid()
      ensures account == "" && password == ""
      ensures !authenticated && patientRecords == map[] && patientAccounts == [] && unmonitoredPatients == []
      ensures filteredPatientAccounts == [] && restrictionText == map[]
      ensures editingRecordIndex == -1 && editingRecordPatientAccount == "" && !isEditingRestriction && currentEditingPatient == ""
      ensures !removingRecord && !confirming && removal == None && !syncArmed && sent == []
    {
      account, password := "", "";
      authenticated := false;
      patientRecords := map[];
      patientAccounts := [];
      unmonitoredPatients := [];
      filteredPatientAccounts := [];
      restrictionText := map[];
      editingRecordIndex := -1;
      editingRecordPatientAccount := "";
      tempPatientRecord := Entry("", 0, 0, 0, 0);
      isEditingRestriction := false;
      currentEditingPatient := "";
      removingRecord := false;
      confirming := false;
      removal := None;
      syncArmed := false;
      sent := [];
    }

    /** No editor is open and no dialog is being answered: the refresh may replace the records. */
    predicate RefreshAllowed()
      reads this
    {
      !isEditingRestriction && editingRecordIndex == -1 && !confirming
    }

    /** The first request of `syncMonitorData`: none when logged out, the records when refreshing is allowed, else the unmonitored list. */
    function SyncOpening(): seq<Request>
      reads this
    {
      if !authenticated then []
      else if RefreshAllowed() then [FetchMonitoringPatients]
      else [FetchUnmonitoredPatients]
    }

    function RecordOf(p: string): Option<Obj>
      reads this
    {
      if p in patientRecords then Some(patientRecords[p]) else None
    }

    /** `processFetchedData`: the fetched records and accounts are taken, and each monitored record is filled. */
    method ProcessFetchedData(reply: FetchReply)
      requires Valid() && reply.Usable()
      modifies this`patientRecords, this`patientAccounts, this`restrictionText, this`sent
      ensures Valid()
      ensures patientAccounts == reply.accounts
      ensures var ps := MonitoredAccounts(reply.accounts);
        patientRecords == FilledRecords(reply.records, ps)
        && restrictionText == FilledNotes(old(restrictionText), reply.records, ps)
        && sent == old(sent) + FillRequests(reply.records, ps)
    {
      patientAccounts := reply.accounts;
      var recs, notes, reqs := FillFetched(reply.records, MonitoredAccounts(reply.accounts), restrictionText);
      patientRecords := recs;
      restrictionText := notes;
      sent := sent + reqs;
    }

    /** The loop of `processFetchedData` over the monitored accounts `ps`, on the fetched records and the notes before it. */
    static method FillFetched(records: map<string, Obj>, ps: seq<string>, notes0: map<string, MonitorNote>)
      returns (recs: map<string, Obj>, notes: map<string, MonitorNote>, reqs: seq<Request>)
      requires Listed(records, ps)
      ensures recs == FilledRecords(records, ps)
      ensures notes == FilledNotes(notes0, records, ps)
      ensures reqs == FillRequests(records, ps)
    {
      recs, notes, reqs := records, notes0, [];
      assert ps[..0] == [];
      assert FilledRecords(records, []) == records;
      assert FilledNotes(notes0, records, []) == notes0;
      for i := 0 to |ps|
        invariant recs == FilledRecords(records, ps[..i])
        invariant notes == FilledNotes(notes0, records, ps[..i])
        invariant reqs == FillRequests(records, ps[..i])
      {
        var p := ps[i];
        var r, modified := FillRecord(recs[p], ControlKeys);
        FillAdvance(records, notes0, ps, i, recs, notes, reqs, r, modified);
        recs := recs[p := r];
        if modified {
          reqs := reqs + [UpdateRecordRequest(p, Some(r))];
        }
        notes := notes[p := RestrictionNote(r)];
      }
      assert ps[..|ps|] == ps;
    }

    /** The filling of one record, key by key, in the order of `ks`. */
    static method FillRecord(o: Obj, ks: seq<string>) returns (r: Obj, modified: bool)
      ensures r == FillKeys(o, ks) && modified == Lacks(o, ks)
    {
      r := o;
      modified := false;
      for i := 0 to |ks|
        invariant FillKeys(r, ks[i..]) == FillKeys(o, ks)
        invariant forall k :: k !in ks[..i] ==> (k in r.vals <==> k in o.vals)
        invariant forall k :: k in ks[..i] ==> k in r.vals
        invariant modified <==> Lacks(o, ks[..i])
      {
        var key := ks[i];
        assert ks[i..][0] == key && ks[i..][1..] == ks[i + 1..];
        assert ks[..i + 1] == ks[..i] + [key];
        if key !in r.vals {
          assert key !in ks[..i];
          r := r.Put(key, DefaultControl(key));
          modified := true;
        }
      }
      assert ks[|ks|..] == [] && ks[..|ks|] == ks;
    }

    /**
     * `authenticate` up to its second `await`, with the reply to its
     * `FETCH_MONITORING_PATIENTS` request. Without both credentials nothing is
     * sent. A success logs in, processes the records and asks for the
     * unmonitored list. A wrong password clears the password; an error status
     * (the request throws) clears nothing; any other message clears both
     * credentials. In every case but success the client stays logged out.
     */
    method Authenticate(reply: FetchReply)
      requires Valid() && !authenticated && reply.Usable()
      modifies this`account, this`password, this`authenticated, this`patientRecords, this`patientAccounts,
        this`restrictionText, this`sent
      ensures Valid() && !syncArmed
      ensures authenticated <==> old(account) != "" && old(password) != "" && reply.message == FetchMonitoringPatientsSuccess
      ensures old(account) == "" || old(password) == "" ==>
        sent == old(sent) && account == old(account) && password == old(password)
      ensures !authenticated ==>
        patientRecords == old(patientRecords) && patientAccounts == old(patientAccounts) && restrictionText == old(restrictionText)
      ensures old(account) != "" && old(password) != "" && !authenticated ==> sent == old(sent) + [FetchMonitoringPatients]
      ensures old(account) != "" && old(password) != "" ==>
        if reply.message in {FetchMonitoringPatientsSuccess, ServerError} then account == old(account) && password == old(password)
        else if reply.message == AuthFailPassword then account == old(account) && password == ""
        else account == "" && password == ""
      ensures authenticated ==>
        var ps := MonitoredAccounts(reply.accounts);
        patientRecords == FilledRecords(reply.records, ps) && patientAccounts == reply.accounts
        && restrictionText == FilledNotes(old(restrictionText), reply.records, ps)
        && sent == old(sent) + [FetchMonitoringPatients] + FillRequests(reply.records, ps) + [FetchUnmonitoredPatients]
    {
      if account == "" || password == "" {
        return;
      }
      sent := sent + [FetchMonitoringPatients];
      if reply.message == ServerError {
        authenticated := false;
        return;
      }
      if reply.message != FetchMonitoringPatientsSuccess {
        if reply.message == AuthFailPassword {
          password := "";
        } else {
          ResetCredentials();
        }
        authenticated := false;
        return;
      }
      authenticated := true;
      ProcessFetchedData(reply);
      sent := sent + [FetchUnmonitoredPatients];
    }

    /** `resetCredentials`: both credentials are forgotten. */
    method ResetCredentials()
      modifies this`account, this`password
      ensures account == "" && password == ""
    {
      account, password := "", "";
    }

    /**
     * The rest of `authenticate` once the unmonitored list is answered. An
     * error status throws into `authenticate`'s handler, which logs out;
     * otherwise the list is taken on success, the monitored accounts are
     * filtered by the search box, and `setupSync` runs the visibility handler,
     * which arms the refresh when the page is visible.
     */
    method FinishAuthenticate(reply: UnmonitoredReply, searchQuery: string, hidden: bool) returns (fetching: bool)
      requires Valid() && authenticated && !syncArmed
      modifies this`authenticated, this`unmonitoredPatients, this`filteredPatientAccounts, this`syncArmed, this`sent
      ensures Valid()
      ensures reply.message == ServerError ==>
        !authenticated && unmonitoredPatients == old(unmonitoredPatients)
        && filteredPatientAccounts == old(filteredPatientAccounts) && !syncArmed && sent == old(sent) && !fetching
      ensures reply.message != ServerError ==>
        authenticated
        && unmonitoredPatients == (if reply.message == FetchUnmonitoredPatientsSuccess then UnmonitoredNames(reply.rows) else old(unmonitoredPatients))
        && filteredPatientAccounts == FilterPatients(MonitoredAccounts(patientAccounts), searchQuery)
        && (syncArmed <==> !hidden)
        && sent == old(sent) + (if hidden then [] else SyncOpening())
        && (fetching <==> !hidden && RefreshAllowed())
    {
      fetching := false;
      if reply.message == ServerError {
        authenticated := false;
        return;
      }
      FinishUnmonitored(reply);
      FilterPatientList(searchQuery);
      fetching := HandleVisibilityChange(hidden);
    }

    /** The continuation of `fetchUnmonitoredPatients`. */
    method FinishUnmonitored(reply: UnmonitoredReply)
      modifies this`unmonitoredPatients
      ensures reply.message == FetchUnmonitoredPatientsSuccess ==> unmonitoredPatients == UnmonitoredNames(reply.rows)
      ensures reply.message != FetchUnmonitoredPatientsSuccess ==> unmonitoredPatients == old(unmonitoredPatients)
    {
      if reply.message == FetchUnmonitoredPatientsSuccess {
        unmonitoredPatients := UnmonitoredNames(reply.rows);
      }
    }

    /**
     * `syncMonitorData` up to its first `await`: nothing when logged out; the
     * records are fetched only when no editor or dialog is open, otherwise
     * only the unmonitored list is.
     */
    method BeginSync() returns (fetching: bool)
      modifies this`sent
      ensures fetching <==> authenticated && RefreshAllowed()
      ensures sent == old(sent) + SyncOpening()
    {
      fetching := false;
      if !authenticated {
        return;
      }
      if RefreshAllowed() {
        sent := sent + [FetchMonitoringPatients];
        fetching := true;
      } else {
        sent := sent + [FetchUnmonitoredPatients];
      }
    }

    /**
     * The continuation of `syncMonitorData` once the records arrive: a server
     * error ends the refresh; otherwise the records are taken only when no
     * dialog opened meanwhile and the message is the success, and the
     * unmonitored list is asked for in every case. An editor opened meanwhile
     * does not stop the records from being taken.
     */
    method FinishSync(reply: FetchReply)
      requires Valid() && reply.Usable()
      modifies this`patientRecords, this`patientAccounts, this`restrictionText, this`sent
      ensures Valid()
      ensures reply.message == ServerError ==>
        patientRecords == old(patientRecords) && patientAccounts == old(patientAccounts)
        && restrictionText == old(restrictionText) && sent == old(sent)
      ensures reply.message != ServerError && (confirming || reply.message != FetchMonitoringPatientsSuccess) ==>
        patientRecords == old(patientRecords) && patientAccounts == old(patientAccounts)
        && restrictionText == old(restrictionText) && sent == old(sent) + [FetchUnmonitoredPatients]
      ensures !confirming && reply.message == FetchMonitoringPatientsSuccess ==>
        var ps := MonitoredAccounts(reply.accounts);
        patientRecords == FilledRecords(reply.records, ps) && patientAccounts == reply.accounts
        && restrictionText == FilledNotes(old(restrictionText), reply.records, ps)
        && sent == old(sent) + FillRequests(reply.records, ps) + [FetchUnmonitoredPatients]
    {
      if reply.message == ServerError {
        return;
      }
      if !confirming && reply.message == FetchMonitoringPatientsSuccess {
        ProcessFetchedData(reply);
      }
      sent := sent + [FetchUnmonitoredPatients];
    }

    /** `startSyncInterval`: arms the refresh once, when logged in, and runs it at once. */
    method StartSyncInterval() returns (fetching: bool)
      requires Valid()
      modifies this`syncArmed, this`sent
      ensures Valid()
      ensures old(syncArmed) || !authenticated ==> syncArmed == old(syncArmed) && sent == old(sent) && !fetching
      ensures !old(syncArmed) && authenticated ==>
        syncArmed && sent == old(sent) + SyncOpening() && (fetching <==> RefreshAllowed())
    {
      fetching := false;
      if !syncArmed && authenticated {
        fetching := BeginSync();
        syncArmed := true;
      }
    }

    method StopSyncInterval()
      requires Valid()
      modifies this`syncArmed
      ensures Valid() && !syncArmed
    {
      syncArmed := false;
    }

    /** `handleVisibilityChange`: a hidden page stops the refresh, a visible one starts it. */
    method HandleVisibilityChange(hidden: bool) returns (fetching: bool)
      requires Valid()
      modifies this`syncArmed, this`sent
      ensures Valid()
      ensures !authenticated ==> syncArmed == old(syncArmed) && sent == old(sent) && !fetching
      ensures authenticated && hidden ==> !syncArmed && sent == old(sent) && !fetching
      ensures authenticated && !hidden && old(syncArmed) ==> syncArmed && sent == old(sent) && !fetching
      ensures authenticated && !hidden && !old(syncArmed) ==>
        syncArmed && sent == old(sent) + SyncOpening() && (fetching <==> RefreshAllowed())
    {
      fetching := false;
      if !authenticated {
        return;
      }
      if hidden {
        StopSyncInterval();
      } else {
        fetching := StartSyncInterval();
      }
    }

    /** `confirmLogout`, with the dialog's answer: a confirmed logout forgets every list and stops the refresh. */
    method ConfirmLogout(confirmed: bool)
      requires Valid()
      modifies this`account, this`password, this`authenticated, this`patientRecords, this`patientAccounts,
        this`unmonitoredPatients, this`filteredPatientAccounts, this`syncArmed
      ensures Valid()
      ensures confirmed ==>
        !authenticated && account == "" && password == "" && patientRecords == map[] && patientAccounts == [] && unmonitoredPatients == []
        && filteredPatientAccounts == [] && !syncArmed
      ensures !confirmed ==>
        account == old(account) && password == old(password)
        && authenticated == old(authenticated) && patientRecords == old(patientRecords) && patientAccounts == old(patientAccounts)
        && unmonitoredPatients == old(unmonitoredPatients) && filteredPatientAccounts == old(filteredPatientAccounts)
        && syncArmed == old(syncArmed)
    {
      if confirmed {
        authenticated := false;
        ResetCredentials();
        patientRecords := map[];
        patientAccounts := [];
        unmonitoredPatients := [];
        filteredPatientAccounts := [];
        syncArmed := false;
      }
    }

    method FilterPatientList(searchQuery: string)
      modifies this`filteredPatientAccounts
      ensures filteredPatientAccounts == FilterPatients(MonitoredAccounts(patientAccounts), searchQuery)
    {
      var query := Lower(Trim(searchQuery));
      if query == [] {
        filteredPatientAccounts := MonitoredAccounts(patientAccounts);
      } else {
        filteredPatientAccounts := KeepMatching(MonitoredAccounts(patientAccounts), query);
      }
    }

    /**
     * `toggleRestrictionEdit` on patient `p`. Closing is refused (nothing
     * changes) unless `CloseVerdict` allows it; a closed editor is sent to the
     * backend, and its note and `currentEditingPatient` are renewed only when
     * the limit is not blank. Opening closes the editor of the patient being
     * edited before, which throws when that patient has no record.
     */
    method ToggleRestrictionEdit(p: string) returns (verdict: Verdict)
      requires Valid() && p in patientRecords
      modifies this`patientRecords, this`restrictionText, this`currentEditingPatient, this`isEditingRestriction, this`sent
      ensures Valid()
      ensures verdict == (if Truthy(old(patientRecords[p]).Get(IsEditingKey)) then CloseVerdict(old(patientRecords[p])) else Close)
      ensures verdict != Close ==>
        patientRecords == old(patientRecords) && restrictionText == old(restrictionText)
        && currentEditingPatient == old(currentEditingPatient) && isEditingRestriction == old(isEditingRestriction)
        && sent == old(sent)
      ensures verdict == Close ==>
        var o := old(patientRecords[p]);
        var r := o.Put(IsEditingKey, BoolV(!Truthy(o.Get(IsEditingKey))));
        if Truthy(o.Get(IsEditingKey)) then
          !isEditingRestriction && sent == old(sent) + [UpdateRecordRequest(p, Some(r))]
          && patientRecords == old(patientRecords)[p := r]
          && (LimitText(o) != [] ==> restrictionText == old(restrictionText)[p := RestrictionNote(r)] && currentEditingPatient == "")
          && (LimitText(o) == [] ==> restrictionText == old(restrictionText) && currentEditingPatient == old(currentEditingPatient))
        else
          var c := old(currentEditingPatient);
          isEditingRestriction
          && (c == "" || c == p ==>
                patientRecords == old(patientRecords)[p := r] && restrictionText == old(restrictionText)
                && sent == old(sent) && currentEditingPatient == p)
          && (c != "" && c != p && c in old(patientRecords) ==>
                var rc := old(patientRecords[c]).Put(IsEditingKey, BoolV(false));
                patientRecords == old(patientRecords)[p := r][c := rc]
                && restrictionText == old(restrictionText)[c := RestrictionNote(rc)]
                && sent == old(sent) + [UpdateRecordRequest(c, Some(rc))] && currentEditingPatient == p)
          && (c != "" && c != p && c !in old(patientRecords) ==>
                patientRecords == old(patientRecords)[p := r] && restrictionText == old(restrictionText)
                && sent == old(sent) && currentEditingPatient == c)
    {
      if Truthy(patientRecords[p].Get(IsEditingKey)) {
        verdict := CloseVerdict(patientRecords[p]);
        if verdict == Close {
          CloseRestrictionEditor(p);
        }
      } else {
        verdict := Close;
        OpenRestrictionEditor(p);
      }
    }

    /** The closing half of `toggleRestrictionEdit`, once `CloseVerdict` allows it. */
    method CloseRestrictionEditor(p: string)
      requires Valid() && p in patientRecords
      modifies this`patientRecords, this`restrictionText, this`currentEditingPatient, this`isEditingRestriction, this`sent
      ensures Valid()
      ensures var o := old(patientRecords[p]);
        var r := o.Put(IsEditingKey, BoolV(false));
        !isEditingRestriction && sent == old(sent) + [UpdateRecordRequest(p, Some(r))]
        && patientRecords == old(patientRecords)[p := r]
        && (LimitText(o) != [] ==> restrictionText == old(restrictionText)[p := RestrictionNote(r)] && currentEditingPatient == "")
        && (LimitText(o) == [] ==> restrictionText == old(restrictionText) && currentEditingPatient == old(currentEditingPatient))
    {
      var o := patientRecords[p];
      var r := o.Put(IsEditingKey, BoolV(false));
      patientRecords := patientRecords[p := r];
      if LimitText(o) != [] {
        restrictionText := restrictionText[p := RestrictionNote(r)];
        currentEditingPatient := "";
      }
      sent := sent + [UpdateRecordRequest(p, Some(r))];
      isEditingRestriction := false;
    }

    /**
     * The opening half of `toggleRestrictionEdit`: the editor of the patient
     * edited before is closed and sent first.
     */
    method OpenRestrictionEditor(p: string)
      requires Valid() && p in patientRecords
      modifies this`patientRecords, this`restrictionText, this`currentEditingPatient, this`isEditingRestriction, this`sent
      ensures Valid()
      ensures var r := old(patientRecords[p]).Put(IsEditingKey, BoolV(true));
        var c := old(currentEditingPatient);
        isEditingRestriction
        && (c == "" || c == p ==>
              patientRecords == old(patientRecords)[p := r] && restrictionText == old(restrictionText)
              && sent == old(sent) && currentEditingPatient == p)
        && (c != "" && c != p && c in old(patientRecords) ==>
              var rc := old(patientRecords[c]).Put(IsEditingKey, BoolV(false));
              patientRecords == old(patientRecords)[p := r][c := rc]
              && restrictionText == old(restrictionText)[c := RestrictionNote(rc)]
              && sent == old(sent) + [UpdateRecordRequest(c, Some(rc))] && currentEditingPatient == p)
        && (c != "" && c != p && c !in old(patientRecords) ==>
              patientRecords == old(patientRecords)[p := r] && restrictionText == old(restrictionText)
              && sent == old(sent) && currentEditingPatient == c)
    {
      var r := patientRecords[p].Put(IsEditingKey, BoolV(true));
      patientRecords := patientRecords[p := r];
      isEditingRestriction := true;
      var c := currentEditingPatient;
      if c != "" && c != p {
        if c !in patientRecords {
          return;
        }
        var rc := patientRecords[c].Put(IsEditingKey, BoolV(false));
        patientRecords := patientRecords[c := rc];
        restrictionText := restrictionText[c := RestrictionNote(rc)];
        sent := sent + [UpdateRecordRequest(c, Some(rc))];
      }
      currentEditingPatient := p;
    }

    /** The bucket stored under `date` in `p`'s record, when there is one. */
    function BucketAt(p: string, date: string): Option<Bucket>
      reads this
    {
      if p in patientRecords then
        match patientRecords[p].Get(date)
        case Some(BucketV(b)) => Some(b)
        case _ => None
      else None
    }

    /** The entry a rendered row points at. */
    predicate EntryAt(p: string, date: string, index: nat)
      reads this
    {
      BucketAt(p, date).Some? && index < |BucketAt(p, date).value.data|
    }

    /**
     * `toggleRecordEdit` on the row `p`, `date`, `index`. Opening records the
     * row and snapshots its amounts. Closing, with the cells as they are left,
     * stores the entry and the sums adjusted against the snapshot, sends the
     * record, and answers whether every amount is now 0, which makes the
     * client go on to remove the row; `reply` is the answer to that update,
     * and an error status throws before the removal starts.
     */
    method ToggleRecordEdit(p: string, date: string, index: nat, cells: Cells, reply: Message) returns (removeNext: bool)
      requires Valid() && EntryAt(p, date, index)
      modifies this`editingRecordIndex, this`editingRecordPatientAccount, this`tempPatientRecord, this`patientRecords, this`sent
      ensures Valid()
      ensures old(editingRecordIndex) == -1 ==>
        editingRecordIndex == index && editingRecordPatientAccount == p
        && (forall f :: tempPatientRecord.Get(f) == old(BucketAt(p, date)).value.data[index].Get(f))
        && patientRecords == old(patientRecords) && sent == old(sent) && !removeNext
      ensures old(editingRecordIndex) != -1 ==>
        var b := old(BucketAt(p, date)).value;
        var a := FilledEntry(b.data[index], cells);
        var r := old(patientRecords[p]).Put(date, BucketV(Edited(b, index, a, old(tempPatientRecord))));
        editingRecordIndex == -1 && editingRecordPatientAccount == "" && tempPatientRecord == old(tempPatientRecord)
        && patientRecords == old(patientRecords)[p := r] && sent == old(sent) + [UpdateRecordRequest(p, Some(r))]
        && (removeNext <==> AllZero(a) && reply != ServerError)
    {
      var b := BucketAt(p, date).value;
      var e := b.data[index];
      removeNext := false;
      if editingRecordIndex == -1 {
        editingRecordIndex := index;
        editingRecordPatientAccount := p;
        var t := tempPatientRecord;
        for j := 0 to |Fields|
          invariant forall k :: 0 <= k < j ==> t.Get(Fields[k]) == e.Get(Fields[k])
        {
          t := t.Set(Fields[j], e.Get(Fields[j]));
        }
        assert Fields[0] == Food && Fields[1] == Water && Fields[2] == Urination && Fields[3] == Defecation;
        tempPatientRecord := t;
      } else {
        editingRecordIndex := -1;
        editingRecordPatientAccount := "";
        var nb := CloseEdit(b, index, cells, tempPatientRecord);
        var r := patientRecords[p].Put(date, BucketV(nb));
        patientRecords := patientRecords[p := r];
        sent := sent + [UpdateRecordRequest(p, Some(r))];
        var a := FilledEntry(e, cells);
        removeNext := a.food == 0 && a.water == 0 && a.urination == 0 && a.defecation == 0 && reply != ServerError;
        AllZeroFields(a);
      }
    }

    /**
     * `removeRecord` up to the dialog: refreshing is blocked, and the row's
     * entry is captured; a row that is not there makes it throw with
     * `confirming` left set.
     */
    method BeginRemove(p: string, date: string, index: nat) returns (shown: bool)
      modifies this`confirming, this`removal
      ensures confirming
      ensures shown <==> EntryAt(p, date, index)
      ensures shown ==> removal == Some(Removal(p, date, index, BucketAt(p, date).value.data[index]))
      ensures !shown ==> removal == None
    {
      confirming := true;
      shown := EntryAt(p, date, index);
      if shown {
        removal := Some(Removal(p, date, index, BucketAt(p, date).value.data[index]));
      } else {
        removal := None;
      }
    }

    /**
     * The continuation of `removeRecord` with the dialog's answer. A refusal
     * lets the refresh run again. A confirmation takes the captured entry off
     * the bucket it finds now under the same date and index, and sends the
     * record; if that bucket is gone the handler throws and `confirming` stays
     * set.
     */
    method AnswerRemove(confirmed: bool)
      requires Valid() && removal.Some?
      modifies this`removingRecord, this`confirming, this`removal, this`patientRecords, this`sent
      ensures Valid()
      ensures !confirmed ==>
        !confirming && removal == None && removingRecord == old(removingRecord)
        && patientRecords == old(patientRecords) && sent == old(sent)
      ensures confirmed ==> removingRecord && confirming == old(confirming)
      ensures confirmed ==>
        var rm := old(removal).value;
        match old(BucketAt(rm.patient, rm.date))
        case Some(b) =>
          var r := old(patientRecords[rm.patient]).Put(rm.date, BucketV(RemovedAt(b, rm.index, rm.record)));
          patientRecords == old(patientRecords)[rm.patient := r]
          && sent == old(sent) + [UpdateRecordRequest(rm.patient, Some(r))] && removal == old(removal)
        case None =>
          patientRecords == old(patientRecords) && sent == old(sent) && removal == None
    {
      var rm := removal.value;
      if !confirmed {
        confirming := false;
        removal := None;
        return;
      }
      removingRecord := true;
      var found := BucketAt(rm.patient, rm.date);
      if found.None? {
        removal := None;
        return;
      }
      var nb := ClientRemove(found.value, rm.index, rm.record);
      var r := patientRecords[rm.patient].Put(rm.date, BucketV(nb));
      patientRecords := patientRecords[rm.patient := r];
      sent := sent + [UpdateRecordRequest(rm.patient, Some(r))];
    }

    /**
     * The end of a confirmed removal, once the update is answered: both flags
     * are cleared. An error status throws out of `removeRecord` first, so both
     * stay set and every later refresh is blocked.
     */
    method CompleteRemove(reply: Message)
      requires removal.Some? && removingRecord
      modifies this`removingRecord, this`confirming, this`removal
      ensures reply == ServerError ==>
        removingRecord && confirming == old(confirming) && removal == old(removal)
      ensures reply != ServerError ==> !removingRecord && !confirming && removal == None
    {
      if reply == ServerError {
        return;
      }
      removingRecord := false;
      confirming := false;
      removal := None;
    }

    /** `clearPatientData`: the patient's record is replaced by the four control keys at their defaults. */
    method ClearPatientData(patient: string, needConfirm: bool, confirmed: bool)
      modifies this`sent
      ensures needConfirm && !confirmed ==> sent == old(sent)
      ensures !needConfirm || confirmed ==> sent == old(sent) + [UpdateRecordRequest(patient, Some(DefaultControls))]
    {
      if needConfirm && !confirmed {
        return;
      }
      sent := sent + [UpdateRecordRequest(patient, Some(DefaultControls))];
    }

    /**
     * `transferPatientData` to `to` up to the confirmation dialog: the checks
     * run on the records as they are now, and nothing is sent. The dialog does
     * not set `confirming`, so a refresh may replace the records before it is
     * answered.
     */
    method TransferPatientData(to: string) returns (check: TransferCheck)
      ensures check == TransferPrecheck(to, MonitoredAccounts(patientAccounts), unmonitoredPatients, patientRecords)
    {
      check := TransferPrecheck(to, MonitoredAccounts(patientAccounts), unmonitoredPatients, patientRecords);
    }

    /**
     * The dialog's answer to a transfer whose checks passed: a confirmed one
     * sends the source record, read now, to be written under the target. The
     * checks are not repeated. When the source has no record the argument is
     * `undefined`, and `updateRecords`' default parameter sends the target's
     * own record instead.
     */
    method AnswerTransfer(from: string, to: string, confirmed: bool)
      modifies this`sent
      ensures !confirmed ==> sent == old(sent)
      ensures confirmed ==>
        sent == old(sent) + [UpdateRecordRequest(to, if from in patientRecords then Some(patientRecords[from]) else RecordOf(to))]
    {
      if !confirmed {
        return;
      }
      var record := if from in patientRecords then RecordOf(from) else RecordOf(to);
      sent := sent + [UpdateRecordRequest(to, record)];
    }

    /**
     * The rest of a confirmed transfer once the copy is answered. An error
     * status throws out of the handler, so the source is neither cleared nor
     * refreshed; any other answer clears the source (whose own failure is
     * caught) and starts a refresh.
     */
    method FinishTransfer(from: string, reply: Message) returns (fetching: bool)
      modifies this`sent
      ensures reply == ServerError ==> sent == old(sent) && !fetching
      ensures reply != ServerError ==>
        sent == old(sent) + [UpdateRecordRequest(from, Some(DefaultControls))] + SyncOpening()
        && (fetching <==> authenticated && RefreshAllowed())
    {
      fetching := false;
      if reply == ServerError {
        return;
      }
      ClearPatientData(from, false, true);
      fetching := BeginSync();
    }
  }
}
