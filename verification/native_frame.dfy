/** The engine side of a function's stack frame, reduced to what the frame adapter
    relies on: an ordered list of members, each with a display name and a native byte
    offset from the start of the frame aggregate, and the identifier the engine gives
    the frame object. The engine's own calls become pure functions on that list. */
module NativeFrame {
  import opened Wrappers

  /** One native frame member: its display name and its native offset. */
  datatype Member = Member(name: string, offset: int)

  /** Display names of the two synthetic members the engine injects: the saved-registers
      slot and the return-address slot. */
  const SavedRegsName: string := " s"
  const ReturnAddrName: string := " r"

  /** A synthetic member is recognised by its display name alone. */
  predicate Hidden(name: string) {
    name == SavedRegsName || name == ReturnAddrName
  }

  /** The frame object in the engine's own representation. `Struc` is the struct API
      (a `struc_t`, identified by its struct id); `Tinfo` is the type-information API
      (a frame `tinfo_t`, identified by its type id). Both keep members in native order. */
  datatype Frame =
    | Struc(id: int, members: seq<Member>)
    | Tinfo(tid: int, members: seq<Member>)

  /** The identity token the adapter compares: `frame.id` or `frame.get_tid()`. */
  function Identity(f: Frame): int {
    match f
    case Struc(id, _) => id
    case Tinfo(tid, _) => tid
  }

  /** A member search the engine answers: at an exact native offset, or by exact name. */
  datatype Query = AtOffset(offset: int) | Named(name: string)

  predicate Matches(m: Member, q: Query) {
    match q
    case AtOffset(off) => m.offset == off
    case Named(n) => m.name == n
  }

  /** Position of the first member that answers `q`, or `None` when no member does. */
  function Find(ms: seq<Member>, q: Query): (r: Option<nat>)
    ensures r.Some? ==> r.value < |ms| && Matches(ms[r.value], q)
    ensures r.Some? ==> forall j :: 0 <= j < r.value ==> !Matches(ms[j], q)
    ensures r.None? <==> forall j :: 0 <= j < |ms| ==> !Matches(ms[j], q)
  {
    if |ms| == 0 then None
    else if Matches(ms[0], q) then Some(0)
    else
      match Find(ms[1..], q)
      case None => None
      case Some(i) => Some(i + 1)
  }

  /** Struct API lookup (`get_member`, `get_member_by_name`): the member's position, or a
      falsy answer when nothing matches. */
  function StrucLookup(ms: seq<Member>, q: Query): (r: Option<nat>)
    ensures r.None? <==> forall j :: 0 <= j < |ms| ==> !Matches(ms[j], q)
    ensures r.Some? ==> r.value < |ms| && Matches(ms[r.value], q)
    ensures r.Some? ==> forall j :: 0 <= j < r.value ==> !Matches(ms[j], q)
  {
    Find(ms, q)
  }

  /** Type-information API lookup (`get_udm_by_offset`, `get_udm`): a status that is the
      member's index, or -1 when nothing matches. */
  function UdmLookup(ms: seq<Member>, q: Query): (status: int)
    ensures -1 <= status < |ms|
    ensures status == -1 <==> forall j :: 0 <= j < |ms| ==> !Matches(ms[j], q)
    ensures status != -1 ==> Matches(ms[status], q)
    ensures status != -1 ==> forall j :: 0 <= j < status ==> !Matches(ms[j], q)
  {
    match Find(ms, q)
    case None => -1
    case Some(i) => i
  }

  /** The member list without the member at position `i`. */
  function RemoveAt(ms: seq<Member>, i: nat): seq<Member>
    requires i < |ms|
  {
    ms[..i] + ms[i + 1..]
  }

  /** Struct API deletion (`del_struc_member`): removes the first member at native offset
      `off`; a frame with no member there is left as it is. */
  function DelStrucMember(ms: seq<Member>, off: int): (r: seq<Member>)
    ensures Find(ms, AtOffset(off)).None? ==> r == ms
    ensures Find(ms, AtOffset(off)).Some? ==>
      var i := Find(ms, AtOffset(off)).value;
      && |r| == |ms| - 1
      && ms[i].offset == off
      && (forall j :: 0 <= j < i ==> r[j] == ms[j])
      && (forall j :: i <= j < |r| ==> r[j] == ms[j + 1])
  {
    match Find(ms, AtOffset(off))
    case None => ms
    case Some(i) => RemoveAt(ms, i)
  }

  /** Type-information API deletion (`del_udms`): removes the members whose indices lie in
      the half-open range from `idx1` up to, but not including, `idx2`. */
  function DelUdms(ms: seq<Member>, idx1: nat, idx2: nat): (r: seq<Member>)
    requires idx1 <= idx2 <= |ms|
    ensures |r| == |ms| - (idx2 - idx1)
    ensures forall j :: 0 <= j < idx1 ==> r[j] == ms[j]
    ensures forall j :: idx1 <= j < |r| ==> r[j] == ms[j + (idx2 - idx1)]
  {
    ms[..idx1] + ms[idx2..]
  }

  /** No two members share a native offset. */
  predicate DistinctOffsets(ms: seq<Member>) {
    forall i, j :: 0 <= i < j < |ms| ==> ms[i].offset != ms[j].offset
  }

  /** No two members share a name. */
  predicate DistinctNames(ms: seq<Member>) {
    forall i, j :: 0 <= i < j < |ms| ==> ms[i].name != ms[j].name
  }

  /** The shape the engine keeps a frame in: offsets and names both identify a member. */
  predicate WellFormed(ms: seq<Member>) {
    DistinctOffsets(ms) && DistinctNames(ms)
  }

  /** Number of members carrying display name `name`. */
  function Occurrences(ms: seq<Member>, name: string): nat {
    if |ms| == 0 then 0
    else (if ms[0].name == name then 1 else 0) + Occurrences(ms[1..], name)
  }

  /** Removing the member at `i` keeps every other member, in order. */
  lemma RemoveAtKeepsOthers(ms: seq<Member>, i: nat)
    requires i < |ms|
    ensures |RemoveAt(ms, i)| == |ms| - 1
    ensures forall j :: 0 <= j < i ==> RemoveAt(ms, i)[j] == ms[j]
    ensures forall j :: i < j < |ms| ==> RemoveAt(ms, i)[j - 1] == ms[j]
  {
  }

  /** Removing one member keeps offsets and names distinct. */
  lemma RemoveAtWellFormed(ms: seq<Member>, i: nat)
    requires WellFormed(ms) && i < |ms|
    ensures WellFormed(RemoveAt(ms, i))
  {
    var r := RemoveAt(ms, i);
    assert forall k :: 0 <= k < |r| ==> r[k] == ms[if k < i then k else k + 1];
  }

  /** In a well-formed frame, once the member at `i` is removed nothing else answers a
      query that it answered. */
  lemma RemoveAtLosesQuery(ms: seq<Member>, i: nat, q: Query)
    requires WellFormed(ms) && i < |ms| && Matches(ms[i], q)
    ensures Find(RemoveAt(ms, i), q).None?
  {
    var r := RemoveAt(ms, i);
    forall k | 0 <= k < |r|
      ensures !Matches(r[k], q)
    {
      if k < i {
        assert r[k] == ms[k];
      } else {
        assert r[k] == ms[k + 1];
      }
    }
  }
}
