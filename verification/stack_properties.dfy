/** Properties of the stack-frame adapter that relate several of its operations: length
    against iteration, lookup against iteration, deletion against lookup, the two engine
    variants against each other, and equality. */
module StackProperties {
  import opened Wrappers
  import opened NativeFrame
  import opened Stack

  /** `len(frame)` equals the number of iterated variables if and only if the frame holds
      as many synthetic members as the length formula subtracts. */
  lemma LengthMatchesIteration(sf: StackFrame)
    ensures Length(sf) == |Iterate(sf)| <==>
      Occurrences(sf.frame.members, SavedRegsName) + Occurrences(sf.frame.members, ReturnAddrName)
        == 1 + (if sf.retsize != 0 then 1 else 0)
  {
  }

  /** In particular, one `" s"` member and an `" r"` member exactly when a return address
      is reserved make the length and the iteration agree. */
  lemma LengthMatchesIterationOnTypicalFrame(sf: StackFrame)
    requires Occurrences(sf.frame.members, SavedRegsName) == 1
    requires Occurrences(sf.frame.members, ReturnAddrName) == (if sf.retsize != 0 then 1 else 0)
    ensures Length(sf) == |Iterate(sf)|
  {
    LengthMatchesIteration(sf);
  }

  /** Offset round trip: the member at native offset `o` is found by the user-facing
      offset `o - baseOffset`, in either variant. */
  lemma GetByOffsetRoundTrip(sf: StackFrame, i: nat)
    requires DistinctOffsets(sf.frame.members) && i < |sf.frame.members|
    ensures Get(sf, IntKey(sf.frame.members[i].offset - sf.baseOffset)) == Success(Variable(sf.frame.members[i], i))
  {
    DistinctOffsetsFind(sf.frame.members, i);
  }

  /** Name round trip: a member is found by its own name, in either variant. */
  lemma GetByNameRoundTrip(sf: StackFrame, i: nat)
    requires DistinctNames(sf.frame.members) && i < |sf.frame.members|
    ensures Get(sf, StrKey(sf.frame.members[i].name)) == Success(Variable(sf.frame.members[i], i))
  {
    var ms := sf.frame.members;
    var r := Find(ms, Named(ms[i].name));
    assert r.Some?;
  }

  /** Each iterated variable is what a lookup by its name returns, whenever names
      identify members. */
  lemma IterateAgreesWithGet(sf: StackFrame, k: nat)
    requires DistinctNames(sf.frame.members) && k < |Iterate(sf)|
    ensures Get(sf, StrKey(Iterate(sf)[k].member.name)) == Success(Iterate(sf)[k])
  {
    GetByNameRoundTrip(sf, Iterate(sf)[k].index);
  }

  /** Each iterated variable is what a lookup by its user-facing offset returns, whenever
      offsets identify members. */
  lemma IterateAgreesWithGetByOffset(sf: StackFrame, k: nat)
    requires DistinctOffsets(sf.frame.members) && k < |Iterate(sf)|
    ensures Get(sf, IntKey(Iterate(sf)[k].member.offset - sf.baseOffset)) == Success(Iterate(sf)[k])
  {
    GetByOffsetRoundTrip(sf, Iterate(sf)[k].index);
  }

  /** The query a key stands for determines the key, up to Python's aliasing of `True`
      and `False` with the integers 1 and 0. */
  lemma KeyQueryDeterminesKey(sf: StackFrame, k1: Key, k2: Key)
    requires KeyQuery(sf, k1).Success? && KeyQuery(sf, k1) == KeyQuery(sf, k2)
    ensures k1 == k2 || (k1.IsInt() && k2.IsInt() && k1.AsInt() == k2.AsInt())
  {
  }

  /** Lookup by name does not filter: the synthetic saved-registers member is returned
      when asked for by its name. */
  lemma GetReturnsSyntheticByName(sf: StackFrame, i: nat)
    requires i < |sf.frame.members| && sf.frame.members[i].name == SavedRegsName
    ensures Get(sf, StrKey(SavedRegsName)).Success?
    ensures Hidden(Get(sf, StrKey(SavedRegsName)).value.member.name)
  {
  }

  /** The same native frame seen through the other engine API. */
  function Retag(f: Frame): (g: Frame)
    ensures g.Struc? != f.Struc? && g.members == f.members && Identity(g) == Identity(f)
  {
    match f
    case Struc(id, ms) => Tinfo(id, ms)
    case Tinfo(tid, ms) => Struc(tid, ms)
  }

  /** Both variants present the same lookup, iteration and length over the same members,
      and, when offsets identify members, the same deletion. */
  lemma VariantsAgree(sf: StackFrame, key: Key)
    ensures Get(sf.(frame := Retag(sf.frame)), key) == Get(sf, key)
    ensures Iterate(sf.(frame := Retag(sf.frame))) == Iterate(sf)
    ensures Length(sf.(frame := Retag(sf.frame))) == Length(sf)
    ensures DistinctOffsets(sf.frame.members) && Delete(sf, key).Success? ==>
      && Delete(sf.(frame := Retag(sf.frame)), key).Success?
      && Delete(sf.(frame := Retag(sf.frame)), key).value.frame.members == Delete(sf, key).value.frame.members
  {
  }

  /** Delete then look up: in a well-formed frame, once `del frame[key]` succeeds,
      `frame[key]` raises a `KeyError` for that same key. */
  lemma DeleteThenGetFails(sf: StackFrame, key: Key)
    requires WellFormed(sf.frame.members)
    requires Delete(sf, key).Success?
    ensures Get(Delete(sf, key).value, key) == Failure(KeyError(key))
  {
    var ms := sf.frame.members;
    var v := Get(sf, key).value;
    var q := KeyQuery(sf, key).value;
    assert Matches(ms[v.index], q);
    RemoveAtLosesQuery(ms, v.index, q);
  }

  /** Deletion keeps offsets and names distinct. */
  lemma DeletePreservesWellFormed(sf: StackFrame, key: Key)
    requires WellFormed(sf.frame.members)
    requires Delete(sf, key).Success?
    ensures WellFormed(Delete(sf, key).value.frame.members)
  {
    RemoveAtWellFormed(sf.frame.members, Get(sf, key).value.index);
  }

  /** Deletion removes the located member only: every other member stays, in order. */
  lemma DeleteKeepsOtherMembers(sf: StackFrame, key: Key)
    requires DistinctOffsets(sf.frame.members)
    requires Delete(sf, key).Success?
    ensures var i := Get(sf, key).value.index;
            var after := Delete(sf, key).value.frame.members;
            && |after| == |sf.frame.members| - 1
            && (forall j :: 0 <= j < i ==> after[j] == sf.frame.members[j])
            && (forall j :: i < j < |sf.frame.members| ==> after[j - 1] == sf.frame.members[j])
  {
    var ms := sf.frame.members;
    var i := Get(sf, key).value.index;
    RemoveAtKeepsOthers(ms, i);
  }

  /** An adapter still equals itself after a deletion through it. */
  lemma DeleteKeepsEquality(sf: StackFrame, key: Key)
    requires Get(sf, key).Success?
    ensures Equals(Delete(sf, key).value, sf, false)
  {
  }

  /** The result of applying `del frame[k]` for each key in turn, stopping at the first
      error. */
  function DeleteEach(sf: StackFrame, keys: seq<Key>): Result<StackFrame, Error>
    decreases |keys|
  {
    if |keys| == 0 then Success(sf)
    else
      var next :- Delete(sf, keys[0]);
      DeleteEach(next, keys[1..])
  }

  /** The base offset, the return-address size and the frame identity cached at
      construction survive any run of deletions. */
  lemma {:induction false} DeleteEachKeepsCache(sf: StackFrame, keys: seq<Key>)
    requires DeleteEach(sf, keys).Success?
    ensures DeleteEach(sf, keys).value.baseOffset == sf.baseOffset
    ensures DeleteEach(sf, keys).value.retsize == sf.retsize
    ensures Identity(DeleteEach(sf, keys).value.frame) == Identity(sf.frame)
    decreases |keys|
  {
    if |keys| > 0 {
      DeleteEachKeepsCache(Delete(sf, keys[0]).value, keys[1..]);
    }
  }

  /** On a freshly constructed adapter an integer key `k` looks for native offset
      `k` plus the owning function's return-address offset. */
  lemma ConstructTranslatesOffsets(frame: Frame, info: FuncInfo, k: int)
    ensures var r := Get(Construct(frame, info), IntKey(k));
      && (r.Success? <==> exists j :: 0 <= j < |frame.members| && frame.members[j].offset == k + info.retAddrOffset)
      && (r.Success? ==> r.value.member.offset == k + info.retAddrOffset)
      && (r.Failure? ==> r.error == KeyError(IntKey(k)))
  {
  }

  /** Two adapters built over frames with the same identity are equal whatever the
      owning-function answers were. */
  lemma ConstructSameFrameEqual(f: Frame, g: Frame, i1: FuncInfo, i2: FuncInfo)
    requires f.Struc? == g.Struc?
    ensures Equals(Construct(f, i1), Construct(g, i2), false) <==> Identity(f) == Identity(g)
  {
  }

  /** A frame of three native members, the saved-registers slot among them and no
      return address reserved: length 2, and iteration yields the other two. */
  lemma ScenarioNoReturnSlot()
    ensures var sf := StackFrame(Struc(1, [Member("var_8", 0), Member("var_4", 4), Member(" s", 8)]), 8, 0);
      && Length(sf) == 2
      && Iterate(sf) == [Variable(Member("var_8", 0), 0), Variable(Member("var_4", 4), 1)]
  {
    var sf := StackFrame(Struc(1, [Member("var_8", 0), Member("var_4", 4), Member(" s", 8)]), 8, 0);
    assert " s" != "var_8" && " r" != "var_8" && " s" != "var_4" && " r" != "var_4";
    assert Views(sf.frame.members, 2) == [];
  }

  /** A frame of four native members with both synthetic slots and a return address
      reserved has length 2. */
  lemma ScenarioWithReturnSlot()
    ensures var sf := StackFrame(Tinfo(7, [Member("var_4", 0), Member("arg_0", 4), Member(" s", 8), Member(" r", 12)]), 12, 4);
      Length(sf) == 2
  {
  }

  /** On a frame whose base offset is 8, key -4 looks for native offset 4 and, when that
      slot is empty, the error names -4 rather than 4. */
  lemma ScenarioMissReportsUserKey()
    ensures var sf := StackFrame(Struc(1, [Member("var_8", 0), Member(" s", 8)]), 8, 0);
      && KeyQuery(sf, IntKey(-4)) == Success(AtOffset(4))
      && Get(sf, IntKey(-4)) == Failure(KeyError(IntKey(-4)))
  {
  }

  /** A boolean key is an integer offset: `True` looks one byte above the base. */
  lemma BoolKeyIsOffsetOne(sf: StackFrame)
    ensures Get(sf, BoolKey(true)).Success? ==> Get(sf, BoolKey(true)).value.member.offset == sf.baseOffset + 1
    ensures Get(sf, BoolKey(true)).Failure? ==> Get(sf, BoolKey(true)).error == KeyError(BoolKey(true))
  {
  }

  /** As written, deletion through the type-information API removes nothing: the call
      succeeds, the frame is unchanged, and the same key is still found afterwards. */
  lemma DeleteAsWrittenKeepsMember(sf: StackFrame, key: Key)
    requires sf.frame.Tinfo?
    requires Get(sf, key).Success?
    ensures DeleteAsWritten(sf, key) == Success(sf)
    ensures Get(DeleteAsWritten(sf, key).value, key) == Get(sf, key)
  {
    var ms := sf.frame.members;
    var i := Get(sf, key).value.index;
    assert DelUdms(ms, i, i) == ms;
  }

  /** A concrete instance: deleting `"var_4"` from a one-variable frame leaves it found. */
  lemma DeleteAsWrittenCounterexample()
    ensures var sf := StackFrame(Tinfo(3, [Member("var_4", 0), Member(" s", 4)]), 4, 0);
      && DeleteAsWritten(sf, StrKey("var_4")) == Success(sf)
      && Get(sf, StrKey("var_4")).Success?
      && Get(Delete(sf, StrKey("var_4")).value, StrKey("var_4")).Failure?
  {
    var sf := StackFrame(Tinfo(3, [Member("var_4", 0), Member(" s", 4)]), 4, 0);
    var ms := sf.frame.members;
    assert ms[0].name != ms[1].name && ms[0].offset != ms[1].offset;
    assert WellFormed(ms);
    GetByNameRoundTrip(sf, 0);
    DeleteAsWrittenKeepsMember(sf, StrKey("var_4"));
    DeleteThenGetFails(sf, StrKey("var_4"));
  }
}
