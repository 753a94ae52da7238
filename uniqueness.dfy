/**
 * The "is this no unique" scan shared by departments and employees. The
 * list of rows is reduced to (no, id) keys. With id 0 (a create) every row
 * takes part in the check. With any other id (an update) one element is
 * removed first: the last one whose no and id both equal the input's, or,
 * when none does, the element at index 0. The check then passes when no
 * remaining row has the no.
 */
module Uniqueness {
  datatype Key = Key(no: string, id: int)

  /** The (no, id) keys the scan reads from a list of rows, position by position. */
  function KeysOf<T>(rows: seq<T>, key: T -> Key): (ks: seq<Key>)
    ensures |ks| == |rows|
    ensures forall i :: 0 <= i < |rows| ==> ks[i] == key(rows[i])
  {
    seq(|rows|, i requires 0 <= i < |rows| => key(rows[i]))
  }

  /** The index the scan settles on: the last position holding Key(no, id), or 0 if there is none. */
  function LastMatch(ks: seq<Key>, no: string, id: int): (index: nat)
    ensures |ks| > 0 ==> index < |ks|
    ensures Key(no, id) in ks ==> ks[index] == Key(no, id) && forall j :: index < j < |ks| ==> ks[j] != Key(no, id)
    ensures Key(no, id) !in ks ==> index == 0
  {
    if ks == [] then 0
    else if ks[|ks| - 1] == Key(no, id) then |ks| - 1
    else LastMatch(ks[..|ks| - 1], no, id)
  }

  function RemoveAt<T>(s: seq<T>, i: nat): (r: seq<T>)
    requires i < |s|
    ensures |r| == |s| - 1
    ensures forall p :: 0 <= p < |r| ==> r[p] == if p < i then s[p] else s[p + 1]
  {
    s[..i] + s[i + 1..]
  }

  /** The keys the check looks at. */
  function Survivors(ks: seq<Key>, no: string, id: int): seq<Key>
    requires id != 0 ==> |ks| > 0
  {
    if id == 0 then ks else RemoveAt(ks, LastMatch(ks, no, id))
  }

  predicate NoneHasNo(ks: seq<Key>, no: string) {
    forall k :: k in ks ==> k.no != no
  }

  /** The verdict of the scan. */
  predicate PassesUniqueness(ks: seq<Key>, no: string, id: int)
    requires id != 0 ==> |ks| > 0
  {
    NoneHasNo(Survivors(ks, no, id), no)
  }

  predicate DistinctNos(ks: seq<Key>) {
    forall i, j :: 0 <= i < j < |ks| ==> ks[i].no != ks[j].no
  }

  predicate DistinctIds(ks: seq<Key>) {
    forall i, j :: 0 <= i < j < |ks| ==> ks[i].id != ks[j].id
  }

  /** The index loop of the scan: it remembers the last position that matches both no and id. */
  method ScanIndex(ks: seq<Key>, no: string, id: int) returns (index: nat)
    ensures index == LastMatch(ks, no, id)
  {
    index := 0;
    for i := 0 to |ks|
      invariant index == LastMatch(ks[..i], no, id)
    {
      assert ks[..i + 1][..i] == ks[..i];
      if ks[i].no == no && ks[i].id == id {
        index := i;
      }
    }
    assert ks[..|ks|] == ks;
  }

  /**
   * The check passes exactly when every position other than the removed one
   * (none on a create) holds a different no.
   */
  lemma {:induction false} PassesIff(ks: seq<Key>, no: string, id: int)
    requires id != 0 ==> |ks| > 0
    ensures PassesUniqueness(ks, no, id) <==>
            (forall j :: 0 <= j < |ks| && (id == 0 || j != LastMatch(ks, no, id)) ==> ks[j].no != no)
  {
    if id != 0 {
      var m := LastMatch(ks, no, id);
      RemovedOthers(ks, m, no);
    }
  }

  /** After removing position m, no element has the no exactly when no position other than m has it. */
  lemma RemovedOthers(ks: seq<Key>, m: nat, no: string)
    requires m < |ks|
    ensures NoneHasNo(RemoveAt(ks, m), no) <==> forall j :: 0 <= j < |ks| && j != m ==> ks[j].no != no
  {
    var r := RemoveAt(ks, m);
    if NoneHasNo(r, no) {
      forall j | 0 <= j < |ks| && j != m
        ensures ks[j].no != no
      {
        if j < m {
          assert r[j] == ks[j];
        } else {
          assert r[j - 1] == ks[j];
        }
      }
    }
  }

  /**
   * Updating a row to the no it already has: with unique ids, the row's own
   * position is the one removed, so the check passes exactly when no other
   * row shares the no.
   */
  lemma OwnNoPasses(ks: seq<Key>, p: nat, no: string, id: int)
    requires DistinctIds(ks) && p < |ks| && ks[p] == Key(no, id) && id != 0
    ensures PassesUniqueness(ks, no, id) <==> forall j :: 0 <= j < |ks| && j != p ==> ks[j].no != no
  {
    PassesIff(ks, no, id);
    assert LastMatch(ks, no, id) == p;
  }

  /** With distinct nos as well, updating a row to its own no always passes. */
  lemma OwnNoAlwaysPasses(ks: seq<Key>, p: nat, no: string, id: int)
    requires DistinctIds(ks) && DistinctNos(ks) && p < |ks| && ks[p] == Key(no, id) && id != 0
    ensures PassesUniqueness(ks, no, id)
  {
    OwnNoPasses(ks, p, no, id);
  }

  /**
   * Updating a row to a new no: no element matches both no and id, so the
   * element at index 0 is removed, whatever its no, and only positions 1 and
   * later are checked.
   */
  lemma NewNoSkipsFirst(ks: seq<Key>, no: string, id: int)
    requires id != 0 && |ks| > 0 && Key(no, id) !in ks
    ensures PassesUniqueness(ks, no, id) <==> forall j :: 1 <= j < |ks| ==> ks[j].no != no
  {
    PassesIff(ks, no, id);
  }

  /**
   * So an update can produce two rows with the same no: the row at index 0
   * holds "D1", and the row with id 2 is renamed to "D1" unnoticed.
   */
  lemma FirstRowClashUndetected()
    ensures var ks := [Key("D1", 1), Key("D2", 2)];
            && DistinctNos(ks)
            && PassesUniqueness(ks, "D1", 2)
            && !DistinctNos(ks[1 := Key("D1", 2)])
  {
    var ks: seq<Key> := [Key("D1", 1), Key("D2", 2)];
    NewNoSkipsFirst(ks, "D1", 2);
    var renamed := ks[1 := Key("D1", 2)];
    assert renamed[0].no == renamed[1].no;
  }

  /** A create that passes the check keeps the nos pairwise distinct. */
  lemma {:induction false} CreateKeepsNosDistinct(ks: seq<Key>, no: string, id: int)
    requires DistinctNos(ks) && PassesUniqueness(ks, no, 0)
    ensures DistinctNos(ks + [Key(no, id)])
  {
    var r := ks + [Key(no, id)];
    forall i, j | 0 <= i < j < |r|
      ensures r[i].no != r[j].no
    {
      if j == |ks| {
        assert r[i] in ks;
      } else {
        assert r[i] == ks[i] && r[j] == ks[j];
      }
    }
  }
}
