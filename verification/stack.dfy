/** The stack-frame adapter: one function's frame seen as an ordered collection of stack
    variables, addressed by user-facing offset or by name. The two engine variants — the
    struct API and the type-information API — are the two constructors of the wrapped
    `Frame`; every operation dispatches on that tag where the variants differ and
    normalises to one observable behaviour. */
module Stack {
  import opened Wrappers
  import opened NativeFrame

  /** A lookup key as the caller passes it. Python's `bool` is a subclass of `int`, so a
      boolean key is an offset of 0 or 1; `OtherKey` is any other type, by its name. */
  datatype Key =
    | IntKey(i: int)
    | BoolKey(b: bool)
    | StrKey(s: string)
    | OtherKey(typeName: string)
  {
    /** The key passes the `isinstance(key, int)` test. */
    predicate IsInt() {
      IntKey? || BoolKey?
    }

    function AsInt(): int
      requires IsInt()
    {
      match this
      case IntKey(i) => i
      case BoolKey(b) => if b then 1 else 0
    }
  }

  /** The exceptions the adapter raises: `TypeError` names the rejected key's type,
      `KeyError` carries the key exactly as the caller passed it. */
  datatype Error = TypeError(got: string) | KeyError(key: Key)

  /** What the engine reports about the function owning a frame: the native offset of
      the return-address slot and the size reserved for the return address. */
  datatype FuncInfo = FuncInfo(retAddrOffset: int, retSize: nat)

  /** The adapter: the wrapped native frame and the two values cached at construction. */
  datatype StackFrame = StackFrame(frame: Frame, baseOffset: int, retsize: nat)

  /** A stack variable view: the located member and its native position. */
  datatype Variable = Variable(member: Member, index: nat)

  /** Builds an adapter, caching the owning function's return-address offset as the base
      offset and its return-address size. */
  function Construct(frame: Frame, info: FuncInfo): (r: StackFrame)
    ensures r.frame == frame
    ensures forall k :: KeyQuery(r, IntKey(k)) == Success(AtOffset(k + info.retAddrOffset))
    ensures Length(r) + (if info.retSize != 0 then 1 else 0) == |frame.members| - 1
  {
    StackFrame(frame, info.retAddrOffset, info.retSize)
  }

  /** Adapter equality: the same object (`sameObject`, Python's `is`), or the same engine
      identity token. Both adapters are of one variant, and the same object is one value. */
  function Equals(a: StackFrame, b: StackFrame, sameObject: bool): (r: bool)
    requires a.frame.Struc? == b.frame.Struc?
    requires sameObject ==> a == b
    ensures r <==> Identity(a.frame) == Identity(b.frame)
  {
    sameObject || Identity(a.frame) == Identity(b.frame)
  }

  /** The engine search a key stands for: an integer key is shifted by the base offset,
      a string key is a name, and any other key is rejected before any search. */
  function KeyQuery(sf: StackFrame, key: Key): (r: Result<Query, Error>)
    ensures r.Success? <==> !key.OtherKey?
    ensures r.Failure? ==> key.OtherKey? && r.error == TypeError(key.typeName)
    ensures r.Success? && r.value.AtOffset? ==> key.IsInt() && r.value.offset - sf.baseOffset == key.AsInt()
    ensures r.Success? && r.value.Named? ==> key == StrKey(r.value.name)
  {
    match key
    case IntKey(_) => Success(AtOffset(key.AsInt() + sf.baseOffset))
    case BoolKey(_) => Success(AtOffset(key.AsInt() + sf.baseOffset))
    case StrKey(name) => Success(Named(name))
    case OtherKey(t) => Failure(TypeError(t))
  }

  /** `frame[key]`: the variable at user-facing offset `key` or named `key`. The struct
      API signals a miss with a falsy member, the type-information API with status -1;
      either way the `KeyError` carries the untranslated key. */
  function Get(sf: StackFrame, key: Key): (r: Result<Variable, Error>)
    ensures key.OtherKey? ==> r == Failure(TypeError(key.typeName))
    ensures key.IsInt() ==>
      (r.Success? <==> exists j :: 0 <= j < |sf.frame.members| && sf.frame.members[j].offset == key.AsInt() + sf.baseOffset)
    ensures key.IsInt() && r.Success? ==> r.value.member.offset == key.AsInt() + sf.baseOffset
    ensures key.StrKey? ==>
      (r.Success? <==> exists j :: 0 <= j < |sf.frame.members| && sf.frame.members[j].name == key.s)
    ensures key.StrKey? && r.Success? ==> r.value.member.name == key.s
    ensures r.Success? ==> r.value.index < |sf.frame.members| && sf.frame.members[r.value.index] == r.value.member
    ensures r.Failure? && !key.OtherKey? ==> r.error == KeyError(key)
  {
    var q :- KeyQuery(sf, key);
    match sf.frame
    case Struc(_, ms) =>
      (match StrucLookup(ms, q)
       case None => Failure(KeyError(key))
       case Some(i) => Success(Variable(ms[i], i)))
    case Tinfo(_, ms) =>
      var status := UdmLookup(ms, q);
      if status == -1 then Failure(KeyError(key)) else Success(Variable(ms[status], status))
  }

  /** `del frame[key]`: the same lookup as `Get`, whose errors propagate unchanged, then the
      located member is removed — by its offset through the struct API, by its index
      through the type-information API. The cached values and the identity stay. */
  function Delete(sf: StackFrame, key: Key): (r: Result<StackFrame, Error>)
    ensures Get(sf, key).Failure? ==> r == Failure(Get(sf, key).error)
    ensures Get(sf, key).Success? ==>
      && r.Success?
      && r.value.baseOffset == sf.baseOffset
      && r.value.retsize == sf.retsize
      && r.value.frame.Struc? == sf.frame.Struc?
      && Identity(r.value.frame) == Identity(sf.frame)
      && |r.value.frame.members| == |sf.frame.members| - 1
    ensures Get(sf, key).Success? && (sf.frame.Tinfo? || DistinctOffsets(sf.frame.members)) ==>
      r.value.frame.members == RemoveAt(sf.frame.members, Get(sf, key).value.index)
  {
    var v :- Get(sf, key);
    match sf.frame
    case Struc(id, ms) =>
      var rest := DelStrucMember(ms, v.member.offset);
      assert DistinctOffsets(ms) ==> rest == RemoveAt(ms, v.index) by {
        if DistinctOffsets(ms) {
          DistinctOffsetsFind(ms, v.index);
        }
      }
      Success(sf.(frame := Struc(id, rest)))
    case Tinfo(tid, ms) =>
      var rest := DelUdms(ms, v.index, v.index + 1);
      assert rest == RemoveAt(ms, v.index);
      Success(sf.(frame := Tinfo(tid, rest)))
  }

  /** `del frame[key]` exactly as the type-information variant writes it: the located
      index is passed as both ends of `del_udms`, whose second index is exclusive. The
      struct variant is unaffected. `Delete` is the corrected operation. */
  function DeleteAsWritten(sf: StackFrame, key: Key): (r: Result<StackFrame, Error>)
    ensures Get(sf, key).Failure? ==> r == Failure(Get(sf, key).error)
    ensures sf.frame.Struc? ==> r == Delete(sf, key)
  {
    var v :- Get(sf, key);
    match sf.frame
    case Struc(_, _) => Delete(sf, key)
    case Tinfo(tid, ms) => Success(sf.(frame := Tinfo(tid, DelUdms(ms, v.index, v.index))))
  }

  /** With distinct offsets, the member at `i` is the first one at its offset. */
  lemma DistinctOffsetsFind(ms: seq<Member>, i: nat)
    requires DistinctOffsets(ms) && i < |ms|
    ensures Find(ms, AtOffset(ms[i].offset)) == Some(i)
  {
    var r := Find(ms, AtOffset(ms[i].offset));
    assert r.Some?;
  }

  /** The views of the members from position `from` on, in native order, skipping the
      synthetic ones. */
  function Views(ms: seq<Member>, from: nat): (r: seq<Variable>)
    requires from <= |ms|
    ensures forall k :: 0 <= k < |r| ==> from <= r[k].index < |ms| && r[k].member == ms[r[k].index]
    ensures forall k :: 0 <= k < |r| ==> !Hidden(r[k].member.name)
    ensures forall k, l :: 0 <= k < l < |r| ==> r[k].index < r[l].index
    decreases |ms| - from
  {
    if from == |ms| then []
    else if Hidden(ms[from].name) then Views(ms, from + 1)
    else [Variable(ms[from], from)] + Views(ms, from + 1)
  }

  /** Some view in `vs` stands for the member at native position `i`. */
  predicate Listed(vs: seq<Variable>, i: nat) {
    exists k :: 0 <= k < |vs| && vs[k].index == i
  }

  /** Every visible member from position `from` on has a view. */
  lemma {:induction false} ViewsComplete(ms: seq<Member>, from: nat, i: nat)
    requires from <= i < |ms| && !Hidden(ms[i].name)
    ensures Listed(Views(ms, from), i)
    decreases |ms| - from
  {
    var r := Views(ms, from);
    if i == from {
      assert r == [Variable(ms[from], from)] + Views(ms, from + 1);
      assert r[0].index == i;
      assert Listed(r, i);
    } else {
      ViewsComplete(ms, from + 1, i);
      var rest := Views(ms, from + 1);
      var k :| 0 <= k < |rest| && rest[k].index == i;
      if Hidden(ms[from].name) {
        assert r == rest;
        assert r[k].index == i;
      } else {
        assert r == [Variable(ms[from], from)] + rest;
        assert r[k + 1].index == i;
      }
      assert Listed(r, i);
    }
  }

  /** Every visible member of the frame has a view. */
  lemma ViewsCompleteAll(ms: seq<Member>)
    ensures forall i {:trigger Listed(Views(ms, 0), i)} :: 0 <= i < |ms| && !Hidden(ms[i].name) ==> Listed(Views(ms, 0), i)
  {
    forall i | 0 <= i < |ms| && !Hidden(ms[i].name)
      ensures Listed(Views(ms, 0), i)
    {
      ViewsComplete(ms, 0, i);
    }
  }

  /** Iteration drops exactly the members named `" s"` or `" r"`. */
  lemma {:induction false} ViewsCount(ms: seq<Member>, from: nat)
    requires from <= |ms|
    ensures |Views(ms, from)| + Occurrences(ms[from..], SavedRegsName) + Occurrences(ms[from..], ReturnAddrName)
            == |ms| - from
    decreases |ms| - from
  {
    if from < |ms| {
      ViewsCount(ms, from + 1);
      assert ms[from..][1..] == ms[from + 1..];
      assert ms[from..][0] == ms[from];
    } else {
      assert ms[from..] == [];
    }
  }

  /** `iter(frame)`: every member not named `" s"` or `" r"`, once each, in native order,
      whatever the return-address size. */
  function Iterate(sf: StackFrame): (r: seq<Variable>)
    ensures forall k :: 0 <= k < |r| ==>
      r[k].index < |sf.frame.members| && r[k].member == sf.frame.members[r[k].index] && !Hidden(r[k].member.name)
    ensures forall k, l :: 0 <= k < l < |r| ==> r[k].index < r[l].index
    ensures forall i {:trigger Listed(r, i)} :: 0 <= i < |sf.frame.members| && !Hidden(sf.frame.members[i].name) ==> Listed(r, i)
  {
    ViewsCompleteAll(sf.frame.members);
    Views(sf.frame.members, 0)
  }

  /** `len(frame)`: the native member count, less one for the saved-registers slot and one
      more when the function reserves a return address. Against iteration, it is off by
      however far the synthetic members stray from one `" s"` plus one `" r"` exactly when
      a return address is reserved. */
  function Length(sf: StackFrame): (r: int)
    ensures r + 1 + (if sf.retsize != 0 then 1 else 0)
            == |Iterate(sf)| + Occurrences(sf.frame.members, SavedRegsName) + Occurrences(sf.frame.members, ReturnAddrName)
  {
    ViewsCount(sf.frame.members, 0);
    assert sf.frame.members[0..] == sf.frame.members;
    |sf.frame.members| - 1 - (if sf.retsize != 0 then 1 else 0)
  }
}
