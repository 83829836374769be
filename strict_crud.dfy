/** The add, update and delete steps of the strict record manager
    (58_Project.c) on the array of loaded records. Each prompt is modelled
    by one answer; an answer the program would refuse and ask for again is
    reported as the problem it prints. */
module StrictCrud {
  import opened Wrappers
  import opened CText
  import opened Records
  import opened Csv
  import opened Dates
  import opened Strict

  /** No record's ID or registration equals, ignoring case, the ID or the
      registration of another record: what the uniqueness checks of add and
      update keep. */
  predicate Unique(recs: seq<Record>) {
    forall i, j :: 0 <= i < |recs| && 0 <= j < |recs| && i != j ==>
      !KeyMatches(recs[j], recs[i].inspectionID) && !KeyMatches(recs[j], recs[i].carReg)
  }

  /** A record every field of which passes its prompt's check, the date in
      its normalised form (which is_valid_date accepts unchanged, by
      NormalDateAccepted). */
  ghost predicate ValidRecord(r: Record) {
    && IsValidId(r.inspectionID)
    && IsValidCarReg(r.carReg)
    && IsValidOwnerName(r.owner)
    && NormalDate(r.date)
  }

  ghost predicate AllValid(recs: seq<Record>) {
    forall i :: 0 <= i < |recs| ==> ValidRecord(recs[i])
  }

  // ---------------------------------------------------------------- add

  /** The checks add_record makes before it appends: room for one more
      record, a well-formed ID and registration that no record has as its ID
      or registration, a well-formed owner name and an accepted date. */
  predicate Acceptable(recs: seq<Record>, a: Answers) {
    && |recs| < MaxRecords
    && IsValidId(a.id) && FindByIdOrReg(recs, a.id) == -1
    && IsValidCarReg(a.carReg) && FindByIdOrReg(recs, a.carReg) == -1
    && IsValidOwnerName(a.owner) && ValidateDate(a.date).Some?
  }

  /** The record the answers describe, the date in normalised form. */
  function Entered(a: Answers): Record
    requires ValidateDate(a.date).Some?
  {
    Record(a.id, a.carReg, a.owner, ValidateDate(a.date).value)
  }

  /** add_record on recs == arr[..n]: the capacity check, then the ID,
      registration, owner and date prompts in that order, then arr[n++] = r.
      Each field is copied with strncpy into its column, and none of them is
      cut. */
  function Add(recs: seq<Record>, a: Answers): (r: Result<seq<Record>, Problem>)
    ensures r.Ok? <==> Acceptable(recs, a)
    ensures r.Ok? ==> r.value == recs + [Entered(a)]
    ensures |recs| >= MaxRecords ==> r == Err(Full)
  {
    if |recs| >= MaxRecords then Err(Full)
    else if !IsValidId(a.id) then Err(BadId)
    else if FindByIdOrReg(recs, a.id) != -1 then Err(IdTaken)
    else if !IsValidCarReg(a.carReg) then Err(BadCarReg)
    else if FindByIdOrReg(recs, a.carReg) != -1 then Err(CarRegTaken)
    else if !IsValidOwnerName(a.owner) then Err(BadOwner)
    else
      match ValidateDate(a.date)
      case None => Err(BadDate)
      case Some(d) =>
        Ok(recs + [Record(Truncate(a.id, IdMaxLen), Truncate(a.carReg, CarRegMaxLen),
                          Truncate(a.owner, OwnerMaxLen), Truncate(d, DateMaxLen))])
  }

  /** The array step of add_record: arr is the Record arr[MAX_RECORDS] that
      load_all filled up to n. */
  method AddRecord(arr: array<Record>, n: nat, a: Answers) returns (problem: Option<Problem>, m: nat)
    requires n <= arr.Length == MaxRecords
    modifies arr
    ensures Add(old(arr[..n]), a).Ok? ==>
      problem == None && m == n + 1 && arr[..m] == Add(old(arr[..n]), a).value
    ensures Add(old(arr[..n]), a).Err? ==>
      problem == Some(Add(old(arr[..n]), a).problem) && m == n && arr[..] == old(arr[..])
    ensures arr[m..] == old(arr[m..])
  {
    ghost var recs := arr[..n];
    if n >= MaxRecords {
      return Some(Full), n;
    }
    if !IsValidId(a.id) {
      return Some(BadId), n;
    }
    if FindByIdOrReg(arr[..n], a.id) != -1 {
      return Some(IdTaken), n;
    }
    if !IsValidCarReg(a.carReg) {
      return Some(BadCarReg), n;
    }
    if FindByIdOrReg(arr[..n], a.carReg) != -1 {
      return Some(CarRegTaken), n;
    }
    if !IsValidOwnerName(a.owner) {
      return Some(BadOwner), n;
    }
    var date := ValidateDate(a.date);
    if date.None? {
      return Some(BadDate), n;
    }
    var r := Record(Truncate(a.id, IdMaxLen), Truncate(a.carReg, CarRegMaxLen),
                    Truncate(a.owner, OwnerMaxLen), Truncate(date.value, DateMaxLen));
    arr[n] := r;
    assert arr[..n + 1] == recs + [r];
    return None, n + 1;
  }

  /** A key no record matches is found at the end once a record that
      matches it is appended. */
  lemma FoundAtEnd(recs: seq<Record>, e: Record, key: string)
    requires FindByIdOrReg(recs, key) == -1 && KeyMatches(e, key)
    ensures FindByIdOrReg(recs + [e], key) == |recs|
  {
    var v := recs + [e];
    assert forall k :: 0 <= k < |recs| ==> v[k] == recs[k];
    assert v[|recs|] == e;
  }

  /** The appended record is found, by its ID and by its registration, at
      the end. */
  lemma AddedIsFound(recs: seq<Record>, a: Answers)
    requires Add(recs, a).Ok?
    ensures FindByIdOrReg(Add(recs, a).value, a.id) == |recs|
    ensures FindByIdOrReg(Add(recs, a).value, a.carReg) == |recs|
  {
    var e := Entered(a);
    assert KeyMatches(e, a.id) && KeyMatches(e, a.carReg);
    FoundAtEnd(recs, e, a.id);
    FoundAtEnd(recs, e, a.carReg);
  }

  /** Adding the same answers twice is refused the second time. */
  lemma AddTwiceFails(recs: seq<Record>, a: Answers)
    requires Add(recs, a).Ok?
    ensures Add(Add(recs, a).value, a) == Err(Full) || Add(Add(recs, a).value, a) == Err(IdTaken)
  {
    AddedIsFound(recs, a);
  }

  /** Appending a record that no record matches keeps Unique. */
  lemma AppendKeepsUnique(recs: seq<Record>, e: Record)
    requires Unique(recs)
    requires forall k :: 0 <= k < |recs| ==> !KeyMatches(recs[k], e.inspectionID) && !KeyMatches(recs[k], e.carReg)
    ensures Unique(recs + [e])
  {
    var v := recs + [e];
    var n := |recs|;
    forall i, j | 0 <= i < |v| && 0 <= j < |v| && i != j
      ensures !KeyMatches(v[j], v[i].inspectionID) && !KeyMatches(v[j], v[i].carReg)
    {
      if i == n {
        assert v[j] == recs[j];
      } else if j == n {
        assert v[i] == recs[i];
        assert !KeyMatches(recs[i], e.inspectionID) && !KeyMatches(recs[i], e.carReg);
      } else {
        assert v[i] == recs[i] && v[j] == recs[j];
      }
    }
  }

  /** Adding keeps IDs and registrations unique. */
  lemma AddKeepsUnique(recs: seq<Record>, a: Answers)
    requires Unique(recs) && Add(recs, a).Ok?
    ensures Unique(Add(recs, a).value)
  {
    assert FirstMatchFrom(recs, a.id, 0, -1) && FirstMatchFrom(recs, a.carReg, 0, -1);
    AppendKeepsUnique(recs, Entered(a));
  }

  /** The answers add_record accepts make a valid record. */
  lemma EnteredIsValid(recs: seq<Record>, a: Answers)
    requires Acceptable(recs, a)
    ensures ValidRecord(Entered(a))
  {
  }

  lemma AllValidAppend(recs: seq<Record>, r: Record)
    requires AllValid(recs) && ValidRecord(r)
    ensures AllValid(recs + [r])
  {
    EveryAppend(recs, r, ValidRecord);
  }

  /** Adding keeps every record valid. */
  lemma AddKeepsValid(recs: seq<Record>, a: Answers)
    requires AllValid(recs) && Add(recs, a).Ok?
    ensures AllValid(Add(recs, a).value)
  {
    EnteredIsValid(recs, a);
    AllValidAppend(recs, Entered(a));
  }

  // ---------------------------------------------------------------- update

  /** A new ID or registration may go into record idx when no record has it,
      or when record idx is the first that has it. */
  predicate MayTake(recs: seq<Record>, idx: nat, v: string) {
    var c := FindByIdOrReg(recs, v);
    c == -1 || c == idx
  }

  /** The checks of the four prompt loops of update_record: each non-empty
      answer passes its field's check, and a new ID or registration passes
      MayTake against the records as loaded. */
  predicate Revisable(recs: seq<Record>, idx: nat, a: Answers) {
    && (a.id == [] || (IsValidId(a.id) && MayTake(recs, idx, a.id)))
    && (a.carReg == [] || (IsValidCarReg(a.carReg) && MayTake(recs, idx, a.carReg)))
    && (a.owner == [] || IsValidOwnerName(a.owner))
    && (a.date == [] || ValidateDate(a.date).Some?)
  }

  /** The record with each non-empty answer in place of its field, the date
      normalised; an empty answer keeps the current value. */
  function Revised(cur: Record, a: Answers): Record
    requires a.date == [] || ValidateDate(a.date).Some?
  {
    Record(
      if a.id == [] then cur.inspectionID else a.id,
      if a.carReg == [] then cur.carReg else a.carReg,
      if a.owner == [] then cur.owner else a.owner,
      if a.date == [] then cur.date else ValidateDate(a.date).value)
  }

  /** The four prompt loops of update_record on newRec = arr[idx], in the
      order ID, registration, owner, date; the first refused answer is
      reported. */
  function Revise(recs: seq<Record>, idx: nat, a: Answers): (r: Result<Record, Problem>)
    requires idx < |recs|
    ensures r.Ok? <==> Revisable(recs, idx, a)
    ensures r.Ok? ==> r.value == Revised(recs[idx], a)
    ensures r.Err? ==> r.problem !in {Full, NoRecords, NotFound}
  {
    var cur := recs[idx];
    if a.id != [] && !IsValidId(a.id) then Err(BadId)
    else if a.id != [] && !MayTake(recs, idx, a.id) then Err(IdTaken)
    else if a.carReg != [] && !IsValidCarReg(a.carReg) then Err(BadCarReg)
    else if a.carReg != [] && !MayTake(recs, idx, a.carReg) then Err(CarRegTaken)
    else if a.owner != [] && !IsValidOwnerName(a.owner) then Err(BadOwner)
    else if a.date != [] && ValidateDate(a.date).None? then Err(BadDate)
    else
      Ok(Record(
        if a.id == [] then cur.inspectionID else Truncate(a.id, IdMaxLen),
        if a.carReg == [] then cur.carReg else Truncate(a.carReg, CarRegMaxLen),
        if a.owner == [] then cur.owner else Truncate(a.owner, OwnerMaxLen),
        if a.date == [] then cur.date else Truncate(ValidateDate(a.date).value, DateMaxLen)))
  }

  /** update_record on recs == arr[..n]: the key is trimmed, the first record
      it matches is revised, and only that record changes. */
  function Update(recs: seq<Record>, key: string, a: Answers): (r: Result<seq<Record>, Problem>)
    ensures recs == [] ==> r == Err(NoRecords)
    ensures r == Err(NotFound) <==>
      recs != [] && forall k :: 0 <= k < |recs| ==> !KeyMatches(recs[k], Trim(key))
    ensures r.Ok? ==>
      var idx := FindCaseInsensitive(recs, Trim(key));
      && 0 <= idx && KeyMatches(recs[idx], Trim(key))
      && |r.value| == |recs|
      && Revise(recs, idx, a) == Ok(r.value[idx])
      && forall k :: 0 <= k < |recs| && k != idx ==> r.value[k] == recs[k]
  {
    if recs == [] then Err(NoRecords)
    else
      var k := Trim(key);
      var idx := FindCaseInsensitive(recs, k);
      if idx == -1 then Err(NotFound)
      else
        var rv := Revise(recs, idx, a);
        if rv.Err? then Err(rv.problem)
        else
          var v := recs[idx := rv.value];
          assert v[idx] == rv.value;
          Ok(v)
  }

  /** The search loop inside update_record: the first record whose ID or
      registration equals key, ignoring case, or -1. */
  method FindKey(arr: array<Record>, n: nat, key: string) returns (idx: int)
    requires n <= arr.Length
    ensures idx == FindCaseInsensitive(arr[..n], key)
  {
    idx := -1;
    var i := 0;
    while i < n
      invariant 0 <= i <= n
      invariant forall k :: 0 <= k < i ==> !KeyMatches(arr[k], key)
    {
      if EqualsIgnoreCase(arr[i].inspectionID, key) || EqualsIgnoreCase(arr[i].carReg, key) {
        idx := i;
        break;
      }
      i := i + 1;
    }
    ghost var recs := arr[..n];
    assert forall k :: 0 <= k < i ==> !KeyMatches(recs[k], key);
    if idx != -1 {
      assert KeyMatches(recs[idx], key);
    }
  }

  /** The array step of update_record: the key is copied into a
      NUL-terminated buffer and trimmed in place, the record is looked up,
      and arr[idx] = newRec. */
  method UpdateRecord(arr: array<Record>, n: nat, key: string, a: Answers) returns (problem: Option<Problem>)
    requires n <= arr.Length && CString(key)
    modifies arr
    ensures Update(old(arr[..n]), key, a).Ok? ==>
      problem == None && arr[..n] == Update(old(arr[..n]), key, a).value
    ensures Update(old(arr[..n]), key, a).Err? ==>
      problem == Some(Update(old(arr[..n]), key, a).problem) && arr[..] == old(arr[..])
    ensures arr[n..] == old(arr[n..])
  {
    if n == 0 {
      return Some(NoRecords);
    }
    var k := TrimKey(key);
    var idx := FindKey(arr, n, k);
    if idx == -1 {
      return Some(NotFound);
    }
    var rev := Revise(arr[..n], idx, a);
    if rev.Err? {
      return Some(rev.problem);
    }
    ghost var recs := arr[..n];
    arr[idx] := rev.value;
    assert arr[..n] == recs[idx := rev.value];
    return None;
  }

  /** Empty answers at every prompt leave the records as they were. */
  lemma BlankAnswersKeep(recs: seq<Record>, key: string)
    requires FindCaseInsensitive(recs, Trim(key)) != -1
    ensures Update(recs, key, Answers([], [], [], [])) == Ok(recs)
  {
    var idx := FindCaseInsensitive(recs, Trim(key));
    assert recs[idx := recs[idx]] == recs;
  }

  /** Under Unique, a value that record idx may take is held by no other
      record. */
  lemma OnlyHolder(recs: seq<Record>, idx: nat, v: string)
    requires Unique(recs) && idx < |recs| && MayTake(recs, idx, v)
    ensures forall j :: 0 <= j < |recs| && j != idx ==> !KeyMatches(recs[j], v)
  {
    if FindByIdOrReg(recs, v) == idx {
      forall j | 0 <= j < |recs| && j != idx
        ensures !KeyMatches(recs[j], v)
      {
        assert !KeyMatches(recs[j], recs[idx].inspectionID) && !KeyMatches(recs[j], recs[idx].carReg);
      }
    }
  }

  /** The ID or registration record idx holds after the update, whether
      kept or newly taken, is held by no other record. */
  lemma HeldByNoOther(recs: seq<Record>, idx: nat, v: string)
    requires Unique(recs) && idx < |recs|
    requires v == recs[idx].inspectionID || v == recs[idx].carReg || MayTake(recs, idx, v)
    ensures forall j :: 0 <= j < |recs| && j != idx ==> !KeyMatches(recs[j], v)
  {
    if v != recs[idx].inspectionID && v != recs[idx].carReg {
      OnlyHolder(recs, idx, v);
    }
  }

  /** Replacing one record keeps Unique when no other record matches the new
      record's ID or registration. */
  lemma ReplaceKeepsUnique(recs: seq<Record>, idx: nat, nr: Record)
    requires Unique(recs) && idx < |recs|
    requires forall j :: 0 <= j < |recs| && j != idx ==>
      !KeyMatches(recs[j], nr.inspectionID) && !KeyMatches(recs[j], nr.carReg)
    ensures Unique(recs[idx := nr])
  {
    var v := recs[idx := nr];
    forall i, j | 0 <= i < |v| && 0 <= j < |v| && i != j
      ensures !KeyMatches(v[j], v[i].inspectionID) && !KeyMatches(v[j], v[i].carReg)
    {
      if j == idx {
        assert !KeyMatches(recs[i], nr.inspectionID) && !KeyMatches(recs[i], nr.carReg);
      }
    }
  }

  /** A successful update replaces the record found for the trimmed key by
      its revised form. */
  lemma {:induction false} UpdateShape(recs: seq<Record>, key: string, a: Answers) returns (idx: nat)
    requires Update(recs, key, a).Ok?
    ensures idx == FindCaseInsensitive(recs, Trim(key)) && idx < |recs|
    ensures a.date == [] || ValidateDate(a.date).Some?
    ensures Update(recs, key, a).value == recs[idx := Revised(recs[idx], a)]
  {
    var v := Update(recs, key, a).value;
    idx := FindCaseInsensitive(recs, Trim(key));
    var rv := Revise(recs, idx, a);
    assert rv == Ok(v[idx]);
    assert Revisable(recs, idx, a);
    ReplacedAt(recs, idx, Revised(recs[idx], a), v);
  }

  /** The answers of a successful update passed every check of the prompt
      loops. */
  lemma UpdateRevisable(recs: seq<Record>, key: string, a: Answers)
    requires Update(recs, key, a).Ok?
    ensures var idx := FindCaseInsensitive(recs, Trim(key));
      0 <= idx < |recs| && Revisable(recs, idx, a)
  {
    assert Revise(recs, FindCaseInsensitive(recs, Trim(key)), a).Ok?;
  }

  /** Updating keeps IDs and registrations unique. */
  lemma UpdateKeepsUnique(recs: seq<Record>, key: string, a: Answers)
    requires Unique(recs) && Update(recs, key, a).Ok?
    ensures Unique(Update(recs, key, a).value)
  {
    var idx := UpdateShape(recs, key, a);
    UpdateRevisable(recs, key, a);
    var nr := Revised(recs[idx], a);
    HeldByNoOther(recs, idx, nr.inspectionID);
    HeldByNoOther(recs, idx, nr.carReg);
    ReplaceKeepsUnique(recs, idx, nr);
  }

  /** Answers the update prompts accept turn a valid record into a valid
      record. */
  lemma RevisedIsValid(cur: Record, a: Answers)
    requires ValidRecord(cur)
    requires a.id == [] || IsValidId(a.id)
    requires a.carReg == [] || IsValidCarReg(a.carReg)
    requires a.owner == [] || IsValidOwnerName(a.owner)
    requires a.date == [] || ValidateDate(a.date).Some?
    ensures ValidRecord(Revised(cur, a))
  {

  }

  /** Updating keeps every record valid. */
  lemma UpdateKeepsValid(recs: seq<Record>, key: string, a: Answers)
    requires AllValid(recs) && Update(recs, key, a).Ok?
    ensures AllValid(Update(recs, key, a).value)
  {
    var idx := UpdateShape(recs, key, a);
    UpdateRevisable(recs, key, a);
    RevisedIsValid(recs[idx], a);
    var v := recs[idx := Revised(recs[idx], a)];
    forall k | 0 <= k < |v| ensures ValidRecord(v[k]) {
      if k != idx {
        assert v[k] == recs[k];
      }
    }
  }

  // ---------------------------------------------------------------- delete

  /** delete_record on recs == arr[..n]: the untrimmed key is looked up with
      find_by_id_or_reg and the record found is removed, the rest keeping
      their order. */
  function Delete(recs: seq<Record>, key: string): (r: Result<seq<Record>, Problem>)
    ensures recs == [] ==> r == Err(NoRecords)
    ensures r == Err(NotFound) <==>
      recs != [] && forall k :: 0 <= k < |recs| ==> !KeyMatches(recs[k], key)
    ensures r.Ok? ==>
      var idx := FindByIdOrReg(recs, key);
      && 0 <= idx && KeyMatches(recs[idx], key)
      && |r.value| == |recs| - 1
      && r.value[..idx] == recs[..idx] && r.value[idx..] == recs[idx + 1..]
  {
    if recs == [] then Err(NoRecords)
    else
      var idx := FindByIdOrReg(recs, key);
      if idx == -1 then Err(NotFound)
      else Ok(RemoveAt(recs, idx))
  }

  /** The array step of delete_record: the shift-down loop, then n--. */
  method DeleteRecord(arr: array<Record>, n: nat, key: string) returns (problem: Option<Problem>, m: nat)
    requires n <= arr.Length
    modifies arr
    ensures Delete(old(arr[..n]), key).Ok? ==>
      problem == None && m == n - 1 && arr[..m] == Delete(old(arr[..n]), key).value
    ensures Delete(old(arr[..n]), key).Err? ==>
      problem == Some(Delete(old(arr[..n]), key).problem) && m == n && arr[..] == old(arr[..])
    ensures arr[m..] == old(arr[m..])
  {
    if n == 0 {
      return Some(NoRecords), 0;
    }
    var idx := FindByIdOrReg(arr[..n], key);
    if idx == -1 {
      return Some(NotFound), n;
    }
    ShiftDown(arr, n, idx);
    return None, n - 1;
  }

  /** Deleting keeps IDs and registrations unique. */
  lemma DeleteKeepsUnique(recs: seq<Record>, key: string)
    requires Unique(recs) && Delete(recs, key).Ok?
    ensures Unique(Delete(recs, key).value)
  {
    var v := Delete(recs, key).value;
    var idx := FindByIdOrReg(recs, key);
    forall i, j | 0 <= i < |v| && 0 <= j < |v| && i != j
      ensures !KeyMatches(v[j], v[i].inspectionID) && !KeyMatches(v[j], v[i].carReg)
    {
      var oi := if i < idx then i else i + 1;
      var oj := if j < idx then j else j + 1;
      assert v[i] == recs[oi] && v[j] == recs[oj];
    }
  }

  /** Deleting keeps every record valid. */
  lemma DeleteKeepsValid(recs: seq<Record>, key: string)
    requires AllValid(recs) && Delete(recs, key).Ok?
    ensures AllValid(Delete(recs, key).value)
  {
    var v := Delete(recs, key).value;
    var idx := FindByIdOrReg(recs, key);
    forall i | 0 <= i < |v| ensures ValidRecord(v[i]) {
      assert v[i] == recs[if i < idx then i else i + 1];
    }
  }

  /** After a delete the key is no longer found, since under Unique only the
      deleted record matched it. */
  lemma DeletedIsGone(recs: seq<Record>, key: string)
    requires Unique(recs) && Delete(recs, key).Ok?
    ensures FindByIdOrReg(Delete(recs, key).value, key) == -1
  {
    var v := Delete(recs, key).value;
    var idx := FindByIdOrReg(recs, key);
    forall i | 0 <= i < |v| ensures !KeyMatches(v[i], key) {
      var oi := if i < idx then i else i + 1;
      assert v[i] == recs[oi];
      assert !KeyMatches(recs[oi], recs[idx].inspectionID) && !KeyMatches(recs[oi], recs[idx].carReg);
    }
  }
}
