/** The add, update and delete steps of the lenient record manager (Final.c)
    on the array of loaded records. Each prompt is modelled by one answer; an
    answer the program would refuse is reported as the problem it prints. */
module LenientCrud {
  import opened Wrappers
  import opened CText
  import opened Records
  import opened Csv
  import opened Lenient

  /** No record's ID or registration equals, in compared form, the ID or the
      registration of another record: what the uniqueness checks of add and
      update keep. */
  predicate Unique(recs: seq<Record>) {
    forall i, j :: 0 <= i < |recs| && 0 <= j < |recs| && i != j ==>
      !KeyMatches(recs[j], recs[i].inspectionID) && !KeyMatches(recs[j], recs[i].carReg)
  }

  /** No record other than idx matches the ID or the registration of record
      idx. */
  predicate AloneAt(recs: seq<Record>, idx: nat)
    requires idx < |recs|
  {
    forall j :: 0 <= j < |recs| && j != idx ==>
      !KeyMatches(recs[j], recs[idx].inspectionID) && !KeyMatches(recs[j], recs[idx].carReg)
  }

  predicate AllSavable(recs: seq<Record>) {
    forall i :: 0 <= i < |recs| ==> Savable(recs[i])
  }

  // ---------------------------------------------------------------- add

  /** The checks add_record makes before it appends: room for one more
      record, an ID and a registration of the right form that no record has
      as its ID or registration, an owner name and a date that pass. The
      registration is not compared with the new ID. */
  predicate Acceptable(recs: seq<Record>, a: Answers) {
    && |recs| < MaxRecords
    && IsValidIdOrReg(a.id) && FindByIdOrReg(recs, a.id) == -1
    && IsValidIdOrReg(a.carReg) && FindByIdOrReg(recs, a.carReg) == -1
    && IsValidOwnerName(a.owner) && IsValidDate(a.date)
  }

  /** The record the answers describe: the date as typed, cut to its column. */
  function Entered(a: Answers): Record {
    Record(a.id, a.carReg, a.owner, Truncate(a.date, DateMaxLen))
  }

  /** add_record on recs == arr[..n]: the capacity check, then the ID,
      registration, owner and date prompts in that order, then arr[n++] = r.
      Each answer is copied with strncpy into its column; only the date can
      be cut. */
  function Add(recs: seq<Record>, a: Answers): (r: Result<seq<Record>, Problem>)
    ensures r.Ok? <==> Acceptable(recs, a)
    ensures r.Ok? ==> r.value == recs + [Entered(a)]
    ensures |recs| >= MaxRecords ==> r == Err(Full)
  {
    if |recs| >= MaxRecords then Err(Full)
    else if !IsValidIdOrReg(a.id) then Err(BadId)
    else if FindByIdOrReg(recs, a.id) != -1 then Err(IdTaken)
    else if !IsValidIdOrReg(a.carReg) then Err(BadCarReg)
    else if FindByIdOrReg(recs, a.carReg) != -1 then Err(CarRegTaken)
    else if !IsValidOwnerName(a.owner) then Err(BadOwner)
    else if !IsValidDate(a.date) then Err(BadDate)
    else
      Ok(recs + [Record(Truncate(a.id, IdRegMaxLen), Truncate(a.carReg, IdRegMaxLen),
                        Truncate(a.owner, OwnerMaxLen), Truncate(a.date, DateMaxLen))])
  }

  /** The array step of add_record: arr is the Record arr[MAX_RECORDS] that
      load_all filled up to n. */
  method AddRecord(arr: array<Record>, n: nat, a: Answers) returns (problem: Option<Problem>, m: nat)
    requires n <= arr.Length == MaxRecords
    modifies arr
    ensures Add(old(arr[..n]), a).Ok? ==>
      problem == None && m == n + 1 && arr[..m] == Add(old(arr[..n]), a).value
    ensures Add(old(arr[..n]), a).Err? ==>
      problem == Some(Add(old(arr[..n]), a).problem) && m == n && arr[..] == old(arr[..])
    ensures arr[m..] == old(arr[m..])
  {
    ghost var recs := arr[..n];
    if n >= MaxRecords {
      return Some(Full), n;
    }
    if !IsValidIdOrReg(a.id) {
      return Some(BadId), n;
    }
    if FindByIdOrReg(arr[..n], a.id) != -1 {
      return Some(IdTaken), n;
    }
    if !IsValidIdOrReg(a.carReg) {
      return Some(BadCarReg), n;
    }
    if FindByIdOrReg(arr[..n], a.carReg) != -1 {
      return Some(CarRegTaken), n;
    }
    if !IsValidOwnerName(a.owner) {
      return Some(BadOwner), n;
    }
    if !IsValidDate(a.date) {
      return Some(BadDate), n;
    }
    var r := Record(Truncate(a.id, IdRegMaxLen), Truncate(a.carReg, IdRegMaxLen),
                    Truncate(a.owner, OwnerMaxLen), Truncate(a.date, DateMaxLen));
    arr[n] := r;
    assert arr[..n + 1] == recs + [r];
    return None, n + 1;
  }

  /** A key no record matches is found at the end once a record that
      matches it is appended. */
  lemma FoundAtEnd(recs: seq<Record>, e: Record, key: string)
    requires FindByIdOrReg(recs, key) == -1 && KeyMatches(e, key)
    ensures FindByIdOrReg(recs + [e], key) == |recs|
  {
    var v := recs + [e];
    assert forall k :: 0 <= k < |recs| ==> v[k] == recs[k];
    assert v[|recs|] == e;
  }

  /** The appended record is found, by its ID and by its registration, at
      the end. */
  lemma AddedIsFound(recs: seq<Record>, a: Answers)
    requires Add(recs, a).Ok?
    ensures FindByIdOrReg(Add(recs, a).value, a.id) == |recs|
    ensures FindByIdOrReg(Add(recs, a).value, a.carReg) == |recs|
  {
    var e := Entered(a);
    assert KeyMatches(e, a.id) && KeyMatches(e, a.carReg);
    FoundAtEnd(recs, e, a.id);
    FoundAtEnd(recs, e, a.carReg);
  }

  /** Adding the same answers twice is refused the second time. */
  lemma AddTwiceFails(recs: seq<Record>, a: Answers)
    requires Add(recs, a).Ok?
    ensures Add(Add(recs, a).value, a) == Err(Full) || Add(Add(recs, a).value, a) == Err(IdTaken)
  {
    AddedIsFound(recs, a);
  }

  /** The registration is never compared with the ID typed before it: answers
      that are accepted stay accepted when the registration repeats the ID. */
  lemma RegMayRepeatId(recs: seq<Record>, a: Answers)
    requires Acceptable(recs, a)
    ensures Add(recs, a.(carReg := a.id)) == Ok(recs + [Record(a.id, a.id, a.owner, Truncate(a.date, DateMaxLen))])
  {
  }

  /** Appending a record that no record matches keeps Unique. */
  lemma AppendKeepsUnique(recs: seq<Record>, e: Record)
    requires Unique(recs)
    requires forall k :: 0 <= k < |recs| ==> !KeyMatches(recs[k], e.inspectionID) && !KeyMatches(recs[k], e.carReg)
    ensures Unique(recs + [e])
  {
    var v := recs + [e];
    var n := |recs|;
    forall i, j | 0 <= i < |v| && 0 <= j < |v| && i != j
      ensures !KeyMatches(v[j], v[i].inspectionID) && !KeyMatches(v[j], v[i].carReg)
    {
      if i == n {
        assert v[j] == recs[j];
      } else if j == n {
        assert v[i] == recs[i];
        assert !KeyMatches(recs[i], e.inspectionID) && !KeyMatches(recs[i], e.carReg);
      } else {
        assert v[i] == recs[i] && v[j] == recs[j];
      }
    }
  }

  /** Adding keeps IDs and registrations unique. */
  lemma AddKeepsUnique(recs: seq<Record>, a: Answers)
    requires Unique(recs) && Add(recs, a).Ok?
    ensures Unique(Add(recs, a).value)
  {
    assert FirstMatchFrom(recs, a.id, 0, -1) && FirstMatchFrom(recs, a.carReg, 0, -1);
    AppendKeepsUnique(recs, Entered(a));
  }

  /** An accepted ID or registration is a savable column. */
  lemma IdRegSavable(v: string)
    requires IsValidIdOrReg(v)
    ensures SavableField(v, IdRegMaxLen)
  {
  }

  lemma OwnerSavable(v: string)
    requires IsValidOwnerName(v)
    ensures SavableField(v, OwnerMaxLen)
  {
  }

  /** An accepted date, cut to its column, is savable when it holds no line
      break. */
  lemma DateSavable(v: string)
    requires IsValidDate(v) && '\r' !in v && '\n' !in v
    ensures SavableField(Truncate(v, DateMaxLen), DateMaxLen)
  {
    DateHasNoComma(v);
    var f := Truncate(v, DateMaxLen);
    forall i | 0 <= i < |f| ensures !IsSeparator(f[i]) {
      assert f[i] == v[i];
    }
  }

  lemma AllSavableAppend(recs: seq<Record>, r: Record)
    requires AllSavable(recs) && Savable(r)
    ensures AllSavable(recs + [r])
  {
    EveryAppend(recs, r, Savable);
  }

  /** Add, save and load again: the records come back with the new one at
      the end, where its ID is found (unit_test_add and e2e_test). A date
      typed with a '\r' in it is left out here. */
  lemma AddSaveReload(recs: seq<Record>, a: Answers)
    requires AllSavable(recs) && Add(recs, a).Ok?
    requires '\r' !in a.date && '\n' !in a.date
    ensures Load(SaveText(Add(recs, a).value), MaxRecords) == Add(recs, a).value
    ensures FindByIdOrReg(Load(SaveText(Add(recs, a).value), MaxRecords), a.id) == |recs|
  {
    IdRegSavable(a.id);
    IdRegSavable(a.carReg);
    OwnerSavable(a.owner);
    DateSavable(a.date);
    AllSavableAppend(recs, Entered(a));
    SaveLoad(recs + [Entered(a)], MaxRecords);
    AddedIsFound(recs, a);
  }

  // ---------------------------------------------------------------- update

  /** A new ID or registration may go into record idx when no record has it,
      or when record idx is the first that has it. */
  predicate MayTake(recs: seq<Record>, idx: nat, v: string) {
    var c := FindByIdOrReg(recs, v);
    c == -1 || c == idx
  }

  /** The records as the registration check sees them: record idx already
      holds the new ID when one was given. */
  function WithId(recs: seq<Record>, idx: nat, a: Answers): (w: seq<Record>)
    requires idx < |recs|
    ensures |w| == |recs| && forall k :: 0 <= k < |recs| && k != idx ==> w[k] == recs[k]
  {
    if a.id == [] then recs else recs[idx := recs[idx].(inspectionID := Truncate(a.id, IdRegMaxLen))]
  }

  /** The checks of update_record's four prompts: each non-empty answer has
      the right form, a new ID passes MayTake against the records as loaded,
      and a new registration passes MayTake against the records with the new
      ID already in place. */
  predicate Revisable(recs: seq<Record>, idx: nat, a: Answers)
    requires idx < |recs|
  {
    && (a.id == [] || (IsValidIdOrReg(a.id) && MayTake(recs, idx, a.id)))
    && (a.carReg == [] || (IsValidIdOrReg(a.carReg) && MayTake(WithId(recs, idx, a), idx, a.carReg)))
    && (a.owner == [] || IsValidOwnerName(a.owner))
    && (a.date == [] || IsValidDate(a.date))
  }

  /** The record with each non-empty answer in place of its field, the date
      cut to its column; an empty answer keeps the current value. */
  function Revised(cur: Record, a: Answers): Record {
    Record(
      if a.id == [] then cur.inspectionID else a.id,
      if a.carReg == [] then cur.carReg else a.carReg,
      if a.owner == [] then cur.owner else a.owner,
      if a.date == [] then cur.date else Truncate(a.date, DateMaxLen))
  }

  /** The array after a run of update_record's steps, and the problem that
      ended it early, if any. The array is saved only when there is none. */
  datatype Outcome = Outcome(recs: seq<Record>, problem: Option<Problem>)

  /** The ID prompt of update_record on record idx: an empty answer keeps
      the ID; otherwise it must have the right form and pass MayTake, and is
      then written into the record. */
  function TakeId(recs: seq<Record>, idx: nat, v: string): (o: Outcome)
    requires idx < |recs|
    ensures o.problem.None? <==> v == [] || (IsValidIdOrReg(v) && MayTake(recs, idx, v))
    ensures o.recs == if o.problem.None? && v != [] then recs[idx := recs[idx].(inspectionID := v)] else recs
  {
    if v == [] then Outcome(recs, None)
    else if !IsValidIdOrReg(v) then Outcome(recs, Some(BadId))
    else if !MayTake(recs, idx, v) then Outcome(recs, Some(IdTaken))
    else Outcome(recs[idx := recs[idx].(inspectionID := Truncate(v, IdRegMaxLen))], None)
  }

  /** The registration prompt, checked against the records as they are at
      that point. */
  function TakeCarReg(recs: seq<Record>, idx: nat, v: string): (o: Outcome)
    requires idx < |recs|
    ensures o.problem.None? <==> v == [] || (IsValidIdOrReg(v) && MayTake(recs, idx, v))
    ensures o.recs == if o.problem.None? && v != [] then recs[idx := recs[idx].(carReg := v)] else recs
  {
    if v == [] then Outcome(recs, None)
    else if !IsValidIdOrReg(v) then Outcome(recs, Some(BadCarReg))
    else if !MayTake(recs, idx, v) then Outcome(recs, Some(CarRegTaken))
    else Outcome(recs[idx := recs[idx].(carReg := Truncate(v, IdRegMaxLen))], None)
  }

  function TakeOwner(recs: seq<Record>, idx: nat, v: string): (o: Outcome)
    requires idx < |recs|
    ensures o.problem.None? <==> v == [] || IsValidOwnerName(v)
    ensures o.recs == if o.problem.None? && v != [] then recs[idx := recs[idx].(owner := v)] else recs
  {
    if v == [] then Outcome(recs, None)
    else if !IsValidOwnerName(v) then Outcome(recs, Some(BadOwner))
    else Outcome(recs[idx := recs[idx].(owner := Truncate(v, OwnerMaxLen))], None)
  }

  function TakeDate(recs: seq<Record>, idx: nat, v: string): (o: Outcome)
    requires idx < |recs|
    ensures o.problem.None? <==> v == [] || IsValidDate(v)
    ensures o.recs == if o.problem.None? && v != [] then recs[idx := recs[idx].(date := Truncate(v, DateMaxLen))] else recs
  {
    if v == [] then Outcome(recs, None)
    else if !IsValidDate(v) then Outcome(recs, Some(BadDate))
    else Outcome(recs[idx := recs[idx].(date := Truncate(v, DateMaxLen))], None)
  }

  /** The four prompts of update_record, each writing its field straight into
      arr[idx] before the next is read; the first refused answer aborts with
      the earlier fields already written. */
  function Revise(recs: seq<Record>, idx: nat, a: Answers): (o: Outcome)
    requires idx < |recs|
    ensures |o.recs| == |recs| && forall k :: 0 <= k < |recs| && k != idx ==> o.recs[k] == recs[k]
    ensures o.problem.None? <==> Revisable(recs, idx, a)
    ensures o.problem.None? ==> o.recs[idx] == Revised(recs[idx], a)
  {
    var o1 := TakeId(recs, idx, a.id);
    assert o1.recs == WithId(recs, idx, a) || o1.problem.Some?;
    if o1.problem.Some? then o1
    else
      var o2 := TakeCarReg(o1.recs, idx, a.carReg);
      if o2.problem.Some? then o2
      else
        var o3 := TakeOwner(o2.recs, idx, a.owner);
        if o3.problem.Some? then o3
        else TakeDate(o3.recs, idx, a.date)
  }

  /** A revision that runs to the end changes record idx alone. */
  lemma ReviseInPlace(recs: seq<Record>, idx: nat, a: Answers)
    requires idx < |recs| && Revise(recs, idx, a).problem.None?
    ensures Revise(recs, idx, a).recs == recs[idx := Revised(recs[idx], a)]
  {
    var o := Revise(recs, idx, a);
    var w := recs[idx := Revised(recs[idx], a)];
    assert |o.recs| == |w|;
    forall k | 0 <= k < |w| ensures o.recs[k] == w[k] {
    }
  }

  /** update_record on recs == arr[..n]: the key is looked up with
      find_by_id_or_reg and the record found is revised field by field. */
  function UpdateSteps(recs: seq<Record>, key: string, a: Answers): (o: Outcome)
    ensures |o.recs| == |recs|
    ensures recs == [] ==> o == Outcome(recs, Some(NoRecords))
    ensures o.problem == Some(NotFound) <==>
      recs != [] && forall k :: 0 <= k < |recs| ==> !KeyMatches(recs[k], key)
    ensures forall k :: 0 <= k < |recs| && k != FindByIdOrReg(recs, key) ==> o.recs[k] == recs[k]
  {
    if recs == [] then Outcome(recs, Some(NoRecords))
    else
      var idx := FindByIdOrReg(recs, key);
      if idx == -1 then Outcome(recs, Some(NotFound))
      else Revise(recs, idx, a)
  }

  /** What update_record saves: the revised records, or the problem that
      stopped it before any save. */
  function Update(recs: seq<Record>, key: string, a: Answers): (r: Result<seq<Record>, Problem>)
    ensures recs == [] ==> r == Err(NoRecords)
    ensures r == Err(NotFound) <==>
      recs != [] && forall k :: 0 <= k < |recs| ==> !KeyMatches(recs[k], key)
    ensures r.Ok? ==>
      var idx := FindByIdOrReg(recs, key);
      && 0 <= idx && Revisable(recs, idx, a)
      && r.value == recs[idx := Revised(recs[idx], a)]
  {
    var o := UpdateSteps(recs, key, a);
    if o.problem.None? then
      var idx := FindByIdOrReg(recs, key);
      ReviseInPlace(recs, idx, a);
      Ok(o.recs)
    else Err(o.problem.value)
  }

  /** One prompt of update_record on arr[idx]: the new value is checked and
      written into the record in place, or the step reports why not. */
  method TakeIdStep(arr: array<Record>, n: nat, idx: nat, v: string) returns (problem: Option<Problem>)
    requires idx < n <= arr.Length
    modifies arr
    ensures Outcome(arr[..n], problem) == TakeId(old(arr[..n]), idx, v)
    ensures arr[n..] == old(arr[n..])
  {
    if v == [] {
      return None;
    }
    if !IsValidIdOrReg(v) {
      return Some(BadId);
    }
    var conflict := FindByIdOrReg(arr[..n], v);
    if conflict != -1 && conflict != idx {
      return Some(IdTaken);
    }
    ghost var recs := arr[..n];
    var t := Truncate(v, IdRegMaxLen);
    assert TakeId(recs, idx, v) == Outcome(recs[idx := recs[idx].(inspectionID := t)], None);
    arr[idx] := arr[idx].(inspectionID := t);
    assert arr[..n] == recs[idx := recs[idx].(inspectionID := t)];
    return None;
  }

  method TakeCarRegStep(arr: array<Record>, n: nat, idx: nat, v: string) returns (problem: Option<Problem>)
    requires idx < n <= arr.Length
    modifies arr
    ensures Outcome(arr[..n], problem) == TakeCarReg(old(arr[..n]), idx, v)
    ensures arr[n..] == old(arr[n..])
  {
    if v == [] {
      return None;
    }
    if !IsValidIdOrReg(v) {
      return Some(BadCarReg);
    }
    var conflict := FindByIdOrReg(arr[..n], v);
    if conflict != -1 && conflict != idx {
      return Some(CarRegTaken);
    }
    ghost var recs := arr[..n];
    var t := Truncate(v, IdRegMaxLen);
    assert TakeCarReg(recs, idx, v) == Outcome(recs[idx := recs[idx].(carReg := t)], None);
    arr[idx] := arr[idx].(carReg := t);
    assert arr[..n] == recs[idx := recs[idx].(carReg := t)];
    return None;
  }

  method TakeOwnerStep(arr: array<Record>, n: nat, idx: nat, v: string) returns (problem: Option<Problem>)
    requires idx < n <= arr.Length
    modifies arr
    ensures Outcome(arr[..n], problem) == TakeOwner(old(arr[..n]), idx, v)
    ensures arr[n..] == old(arr[n..])
  {
    if v == [] {
      return None;
    }
    if !IsValidOwnerName(v) {
      return Some(BadOwner);
    }
    ghost var recs := arr[..n];
    var t := Truncate(v, OwnerMaxLen);
    assert TakeOwner(recs, idx, v) == Outcome(recs[idx := recs[idx].(owner := t)], None);
    arr[idx] := arr[idx].(owner := t);
    assert arr[..n] == recs[idx := recs[idx].(owner := t)];
    return None;
  }

  method TakeDateStep(arr: array<Record>, n: nat, idx: nat, v: string) returns (problem: Option<Problem>)
    requires idx < n <= arr.Length
    modifies arr
    ensures Outcome(arr[..n], problem) == TakeDate(old(arr[..n]), idx, v)
    ensures arr[n..] == old(arr[n..])
  {
    ghost var recs := arr[..n];
    if v == [] {
      assert TakeDate(recs, idx, v) == Outcome(recs, None);
      return None;
    }
    if !IsValidDate(v) {
      assert TakeDate(recs, idx, v) == Outcome(recs, Some(BadDate));
      return Some(BadDate);
    }
    var t := Truncate(v, DateMaxLen);
    assert TakeDate(recs, idx, v) == Outcome(recs[idx := recs[idx].(date := t)], None);
    arr[idx] := arr[idx].(date := t);
    assert arr[..n] == recs[idx := recs[idx].(date := t)];
    return None;
  }

  /** The array step of update_record: the record is looked up, then each
      answer is checked and written into arr[idx] in the order ID,
      registration, owner, date; a refused answer returns at once. */
  method UpdateRecord(arr: array<Record>, n: nat, key: string, a: Answers) returns (problem: Option<Problem>)
    requires n <= arr.Length
    modifies arr
    ensures problem == UpdateSteps(old(arr[..n]), key, a).problem
    ensures arr[..n] == UpdateSteps(old(arr[..n]), key, a).recs
    ensures arr[n..] == old(arr[n..])
  {
    if n == 0 {
      return Some(NoRecords);
    }
    var idx := FindByIdOrReg(arr[..n], key);
    if idx == -1 {
      return Some(NotFound);
    }
    problem := TakeIdStep(arr, n, idx, a.id);
    if problem.Some? {
      return;
    }
    problem := TakeCarRegStep(arr, n, idx, a.carReg);
    if problem.Some? {
      return;
    }
    problem := TakeOwnerStep(arr, n, idx, a.owner);
    if problem.Some? {
      return;
    }
    problem := TakeDateStep(arr, n, idx, a.date);
  }

  /** Empty answers at every prompt leave the records as they were. */
  lemma BlankAnswersKeep(recs: seq<Record>, key: string)
    requires FindByIdOrReg(recs, key) != -1
    ensures Update(recs, key, Answers([], [], [], [])) == Ok(recs)
  {
    var idx := FindByIdOrReg(recs, key);
    assert recs[idx := recs[idx]] == recs;
  }

  /** The registration check sees the new ID: here record 0 takes the ID "B"
      and the registration "A". Checked against the records as loaded, "A"
      is first matched by record 0 itself and would be allowed; with the new
      ID in place it is first matched by record 1, and the update aborts. */
  lemma RegCheckSeesNewId()
    ensures var recs := [Record("A", "R", "Ann", "1/1/2000"), Record("X", "a", "Bo", "1/1/2000")];
      && MayTake(recs, 0, "A")
      && UpdateSteps(recs, "R", Answers("B", "A", [], [])).problem == Some(CarRegTaken)
  {
    var recs := [Record("A", "R", "Ann", "1/1/2000"), Record("X", "a", "Bo", "1/1/2000")];
    var r1 := [Record("B", "R", "Ann", "1/1/2000"), Record("X", "a", "Bo", "1/1/2000")];
    SmallKeys();
    assert FindByIdOrReg(recs, "A") == 0;
    assert FindByIdOrReg(recs, "R") == 0;
    assert TakeId(recs, 0, "B") == Outcome(r1, None) by {
      assert FindByIdOrReg(recs, "B") == -1;
      assert Truncate("B", IdRegMaxLen) == "B";
      assert recs[0 := recs[0].(inspectionID := "B")] == r1;
    }
    assert FindByIdOrReg(r1, "A") == 1 by {
      assert !KeyMatches(r1[0], "A") && KeyMatches(r1[1], "A");
    }
  }

  /** The compared forms of the one-letter keys above. */
  lemma SmallKeys()
    ensures Key("A") == "a" && Key("R") == "r" && Key("B") == "b" && Key("X") == "x" && Key("a") == "a"
  {
    assert Truncate("A", IdRegMaxLen) == "A" && Truncate("R", IdRegMaxLen) == "R";
    assert Truncate("B", IdRegMaxLen) == "B" && Truncate("X", IdRegMaxLen) == "X";
    assert Truncate("a", IdRegMaxLen) == "a";
  }

  /** A value record idx may take, when idx is alone with its keys, is held
      by no other record. */
  lemma OnlyHolder(recs: seq<Record>, idx: nat, v: string)
    requires idx < |recs| && AloneAt(recs, idx) && MayTake(recs, idx, v)
    ensures forall j :: 0 <= j < |recs| && j != idx ==> !KeyMatches(recs[j], v)
  {
    if FindByIdOrReg(recs, v) == idx {
      forall j | 0 <= j < |recs| && j != idx
        ensures !KeyMatches(recs[j], v)
      {
        assert !KeyMatches(recs[j], recs[idx].inspectionID) && !KeyMatches(recs[j], recs[idx].carReg);
      }
    }
  }

  /** Replacing one record keeps Unique when the new record is alone with
      its keys. */
  lemma ReplaceKeepsUnique(recs: seq<Record>, idx: nat, nr: Record)
    requires Unique(recs) && idx < |recs|
    requires AloneAt(recs[idx := nr], idx)
    ensures Unique(recs[idx := nr])
  {
    var v := recs[idx := nr];
    forall i, j | 0 <= i < |v| && 0 <= j < |v| && i != j
      ensures !KeyMatches(v[j], v[i].inspectionID) && !KeyMatches(v[j], v[i].carReg)
    {
      if j == idx {
        assert !KeyMatches(v[i], nr.inspectionID) && !KeyMatches(v[i], nr.carReg);
      }
    }
  }

  /** Under Unique, the records the registration check sees leave record idx
      alone with its keys. */
  lemma WithIdAlone(recs: seq<Record>, idx: nat, a: Answers)
    requires Unique(recs) && idx < |recs|
    requires a.id == [] || (IsValidIdOrReg(a.id) && MayTake(recs, idx, a.id))
    ensures AloneAt(WithId(recs, idx, a), idx)
  {
    var w := WithId(recs, idx, a);
    if a.id != [] {
      assert AloneAt(recs, idx);
      OnlyHolder(recs, idx, a.id);
      assert w[idx].inspectionID == a.id;
    }
  }

  /** Updating keeps IDs and registrations unique. */
  lemma UpdateKeepsUnique(recs: seq<Record>, key: string, a: Answers)
    requires Unique(recs) && Update(recs, key, a).Ok?
    ensures Unique(Update(recs, key, a).value)
  {
    var idx := FindByIdOrReg(recs, key);
    var nr := Revised(recs[idx], a);
    var w := WithId(recs, idx, a);
    WithIdAlone(recs, idx, a);
    if a.carReg != [] {
      OnlyHolder(w, idx, a.carReg);
    }
    var v := recs[idx := nr];
    forall j | 0 <= j < |v| && j != idx
      ensures !KeyMatches(v[j], nr.inspectionID) && !KeyMatches(v[j], nr.carReg)
    {
      assert v[j] == w[j];
    }
    ReplaceKeepsUnique(recs, idx, nr);
  }

  /** Answers the update prompts accept keep a savable record savable, when
      a new date holds no line break. */
  lemma RevisedIsSavable(cur: Record, a: Answers)
    requires Savable(cur)
    requires a.id == [] || IsValidIdOrReg(a.id)
    requires a.carReg == [] || IsValidIdOrReg(a.carReg)
    requires a.owner == [] || IsValidOwnerName(a.owner)
    requires a.date == [] || (IsValidDate(a.date) && '\r' !in a.date && '\n' !in a.date)
    ensures Savable(Revised(cur, a))
  {
    if a.id != [] { IdRegSavable(a.id); }
    if a.carReg != [] { IdRegSavable(a.carReg); }
    if a.owner != [] { OwnerSavable(a.owner); }
    if a.date != [] { DateSavable(a.date); }
  }

  /** Updating keeps every record savable. */
  lemma UpdateKeepsSavable(recs: seq<Record>, key: string, a: Answers)
    requires AllSavable(recs) && Update(recs, key, a).Ok?
    requires '\r' !in a.date && '\n' !in a.date
    ensures AllSavable(Update(recs, key, a).value)
  {
    var idx := FindByIdOrReg(recs, key);
    RevisedIsSavable(recs[idx], a);
    EveryReplace(recs, idx, Revised(recs[idx], a), Savable, Update(recs, key, a).value);
  }

  /** Update, save and load again: the updated records come back as they
      are. */
  lemma UpdateSaveReload(recs: seq<Record>, key: string, a: Answers)
    requires |recs| <= MaxRecords && AllSavable(recs) && Update(recs, key, a).Ok?
    requires '\r' !in a.date && '\n' !in a.date
    ensures Load(SaveText(Update(recs, key, a).value), MaxRecords) == Update(recs, key, a).value
  {
    UpdateKeepsSavable(recs, key, a);
    SaveLoad(Update(recs, key, a).value, MaxRecords);
  }

  // ---------------------------------------------------------------- delete

  /** The key equals the record's ID in compared form; the registration is
      not looked at. */
  predicate IdMatches(r: Record, key: string) {
    Key(r.inspectionID) == Key(key)
  }

  /** The first index from i on whose record's ID matches the key, or -1. */
  function FindIdFrom(recs: seq<Record>, key: string, i: nat): (r: int)
    requires i <= |recs|
    ensures r == -1 || (i <= r < |recs| && IdMatches(recs[r], key))
    ensures forall k :: i <= k < |recs| && (r == -1 || k < r) ==> !IdMatches(recs[k], key)
    decreases |recs| - i
  {
    if i == |recs| then -1
    else if IdMatches(recs[i], key) then i
    else FindIdFrom(recs, key, i + 1)
  }

  /** delete_record on recs == arr[..n]: the first record whose ID matches
      the key is removed, the rest keeping their order. */
  function Delete(recs: seq<Record>, key: string): (r: Result<seq<Record>, Problem>)
    ensures recs == [] ==> r == Err(NoRecords)
    ensures r == Err(NotFound) <==>
      recs != [] && forall k :: 0 <= k < |recs| ==> !IdMatches(recs[k], key)
    ensures r.Ok? ==>
      var idx := FindIdFrom(recs, key, 0);
      && 0 <= idx && IdMatches(recs[idx], key)
      && |r.value| == |recs| - 1
      && r.value[..idx] == recs[..idx] && r.value[idx..] == recs[idx + 1..]
  {
    if recs == [] then Err(NoRecords)
    else
      var idx := FindIdFrom(recs, key, 0);
      if idx == -1 then Err(NotFound)
      else Ok(RemoveAt(recs, idx))
  }

  /** The array step of delete_record: the ID search loop over lower-cased
      copies, the shift-down loop, then n--. */
  method DeleteRecord(arr: array<Record>, n: nat, key: string) returns (problem: Option<Problem>, m: nat)
    requires n <= arr.Length && CString(key)
    requires forall k :: 0 <= k < n ==> CString(arr[k].inspectionID)
    modifies arr
    ensures Delete(old(arr[..n]), key).Ok? ==>
      problem == None && m == n - 1 && arr[..m] == Delete(old(arr[..n]), key).value
    ensures Delete(old(arr[..n]), key).Err? ==>
      problem == Some(Delete(old(arr[..n]), key).problem) && m == n && arr[..] == old(arr[..])
    ensures arr[m..] == old(arr[m..])
  {
    if n == 0 {
      return Some(NoRecords), 0;
    }
    var lowerBuf := LowerCopy(key);
    var idx := -1;
    var i := 0;
    while i < n
      invariant 0 <= i <= n
      invariant idx == -1
      invariant forall k :: 0 <= k < i ==> !IdMatches(arr[k], key)
      invariant arr[..] == old(arr[..])
    {
      var lowerId := LowerCopy(arr[i].inspectionID);
      if lowerId == lowerBuf {
        idx := i;
        break;
      }
      i := i + 1;
    }
    ghost var recs := arr[..n];
    assert forall k :: 0 <= k < i ==> !IdMatches(recs[k], key);
    assert idx == FindIdFrom(recs, key, 0);
    if idx == -1 {
      return Some(NotFound), n;
    }
    ShiftDown(arr, n, idx);
    return None, n - 1;
  }

  /** Delete looks at IDs only: a registration that find_by_id_or_reg finds
      deletes nothing. */
  lemma DeleteIgnoresReg()
    ensures FindByIdOrReg([Samples[0]], "ABC1234") == 0
    ensures Delete([Samples[0]], "ABC1234") == Err(NotFound)
  {
    assert Key("I001") != Key("ABC1234");
    assert Key("ABC1234") == Key("ABC1234");
  }

  /** Deleting keeps IDs and registrations unique. */
  lemma DeleteKeepsUnique(recs: seq<Record>, key: string)
    requires Unique(recs) && Delete(recs, key).Ok?
    ensures Unique(Delete(recs, key).value)
  {
    var v := Delete(recs, key).value;
    var idx := FindIdFrom(recs, key, 0);
    forall i, j | 0 <= i < |v| && 0 <= j < |v| && i != j
      ensures !KeyMatches(v[j], v[i].inspectionID) && !KeyMatches(v[j], v[i].carReg)
    {
      var oi := if i < idx then i else i + 1;
      var oj := if j < idx then j else j + 1;
      assert v[i] == recs[oi] && v[j] == recs[oj];
    }
  }

  /** Deleting keeps every record savable. */
  lemma DeleteKeepsSavable(recs: seq<Record>, key: string)
    requires AllSavable(recs) && Delete(recs, key).Ok?
    ensures AllSavable(Delete(recs, key).value)
  {
    var v := Delete(recs, key).value;
    var idx := FindIdFrom(recs, key, 0);
    forall i | 0 <= i < |v| ensures Savable(v[i]) {
      assert v[i] == recs[if i < idx then i else i + 1];
    }
  }

  /** After a delete the key is found neither as an ID nor as a registration
      (unit_test_delete), since under Unique only the deleted record matched
      it. */
  lemma DeletedIsGone(recs: seq<Record>, key: string)
    requires Unique(recs) && Delete(recs, key).Ok?
    ensures FindByIdOrReg(Delete(recs, key).value, key) == -1
  {
    var v := Delete(recs, key).value;
    var idx := FindIdFrom(recs, key, 0);
    forall i | 0 <= i < |v| ensures !KeyMatches(v[i], key) {
      var oi := if i < idx then i else i + 1;
      assert v[i] == recs[oi];
      assert !KeyMatches(recs[oi], recs[idx].inspectionID);
    }
  }
}
