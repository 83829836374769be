/** The four-column inspection record and what both record managers share:
    the fixed sample data, the shift-down removal used by delete_record, the
    answers typed at the record prompts and the reasons a step is refused. */
module Records {

  /** InspectionID, CarRegNumber, OwnerName, InspectionDate. */
  datatype Record = Record(inspectionID: string, carReg: string, owner: string, date: string)

  /** The twenty sample records of ensure_csv_has_sample, in file order; each
      sample line of the source is these four fields joined by commas. */
  const Samples: seq<Record> := [
    Record("I001", "ABC1234", "John Doe", "01/08/2025"),
    Record("I002", "XYZ5678", "Jane Smith", "03/08/2025"),
    Record("I003", "DEF1112", "Junho Kim", "05/08/2025"),
    Record("I004", "HIJ5060", "Jordan Brown", "07/08/2025"),
    Record("I005", "MYW5791", "Justin Jackson", "09/08/2025"),
    Record("I006", "ZBA7777", "Zephyr Diaz", "11/08/2025"),
    Record("I007", "QWE6006", "Gale Norton", "13/08/2025"),
    Record("I008", "MNO7788", "Fiora Campbell", "15/08/2025"),
    Record("I009", "JQR1111", "Astarion Williams", "17/08/2025"),
    Record("I010", "STR9633", "Wyll Phillips", "19/08/2025"),
    Record("I011", "WIS4002", "Halsin Walker", "21/08/2025"),
    Record("I012", "MSL5533", "Karlach Harris", "23/08/2025"),
    Record("I013", "LGD9889", "Furuya Wataru", "25/08/2025"),
    Record("I014", "FVA3022", "Taeho Park", "27/08/2025"),
    Record("I015", "SDH9966", "Minju Hwang", "29/08/2025"),
    Record("I016", "THZ5050", "Shen Howard", "31/08/2025"),
    Record("I017", "ZAQ4446", "Mateo Ramos", "02/09/2025"),
    Record("I018", "XHU1267", "Luciana Esposito", "04/09/2025"),
    Record("I019", "SOL2233", "Kunibert Schneider", "06/09/2025"),
    Record("I020", "GEN8047", "Leon Lee", "08/09/2025")
  ]

  /** A property of every element and of x holds of every element after x
      is appended. */
  lemma EveryAppend<T>(s: seq<T>, x: T, P: T -> bool)
    requires forall k :: 0 <= k < |s| ==> P(s[k])
    requires P(x)
    ensures forall k :: 0 <= k < |s + [x]| ==> P((s + [x])[k])
  {
    forall k | 0 <= k < |s + [x]| ensures P((s + [x])[k]) {
      if k < |s| {
        assert (s + [x])[k] == s[k];
      }
    }
  }

  /** A sequence that differs from s only at k, where it holds x. */
  lemma ReplacedAt<T>(s: seq<T>, k: nat, x: T, t: seq<T>)
    requires k < |s| && |t| == |s| && t[k] == x
    requires forall i :: 0 <= i < |s| && i != k ==> t[i] == s[i]
    ensures t == s[k := x]
  {
  }

  /** A property of every element and of x holds of every element after x
      replaces the one at k. */
  lemma EveryReplace<T>(s: seq<T>, k: nat, x: T, P: T -> bool, t: seq<T>)
    requires k < |s| && t == s[k := x]
    requires forall i :: 0 <= i < |s| ==> P(s[i])
    requires P(x)
    ensures forall i :: 0 <= i < |t| ==> P(t[i])
  {
  }

  /** The collection after the element at k is removed, the rest in order. */
  function RemoveAt<T>(s: seq<T>, k: nat): (r: seq<T>)
    requires k < |s|
    ensures |r| == |s| - 1
    ensures forall i :: 0 <= i < k ==> r[i] == s[i]
    ensures forall i :: k <= i < |r| ==> r[i] == s[i + 1]
  {
    s[..k] + s[k + 1..]
  }

  /** The loop `for (i = idx; i < n - 1; ++i) arr[i] = arr[i + 1];` of
      delete_record: the first n - 1 slots then hold the records without the
      one at idx, and the last old slot keeps its (now duplicated) record. */
  method ShiftDown(arr: array<Record>, n: nat, idx: nat)
    requires idx < n <= arr.Length
    modifies arr
    ensures arr[..n - 1] == RemoveAt(old(arr[..n]), idx)
    ensures arr[n - 1..] == old(arr[n - 1..])
  {
    var i := idx;
    while i < n - 1
      invariant idx <= i <= n - 1
      invariant forall k :: 0 <= k < idx ==> arr[k] == old(arr[k])
      invariant forall k :: idx <= k < i ==> arr[k] == old(arr[k + 1])
      invariant forall k :: i <= k < arr.Length ==> arr[k] == old(arr[k])
    {
      arr[i] := arr[i + 1];
      i := i + 1;
    }
  }

  /** Why an add, update or delete step is refused. */
  datatype Problem =
    | Full         // n >= MAX_RECORDS in add_record
    | NoRecords    // n == 0 in update_record and delete_record
    | NotFound     // no record for the key
    | BadId
    | IdTaken
    | BadCarReg
    | CarRegTaken
    | BadOwner
    | BadDate

  /** What was typed at the ID, registration, owner and date prompts, with
      input_line's line end removed. */
  datatype Answers = Answers(id: string, carReg: string, owner: string, date: string)
}
