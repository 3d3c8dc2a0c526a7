/**
 Protobuf messages as tables of slots. A slot is a field with its emission rule: a plain proto3 field
 is omitted when it holds its default, a non-nullable or custom-typed one is always emitted.
 */
module Messages {
  import opened Basics
  import opened Protowire

  datatype Slot = Slot(field: Field, always: bool)

  predicate IsDefault(f: Field) {
    match f
    case Varint(_, number) => number == 0
    case Len(_, payload) => payload == []
  }

  predicate Shown(s: Slot) {
    s.always || !IsDefault(s.field)
  }

  function Emit(slots: seq<Slot>): seq<Field> {
    if slots == [] then []
    else
      var init, last := slots[..|slots| - 1], slots[|slots| - 1];
      if Shown(last) then Emit(init) + [last.field] else Emit(init)
  }

  function WriteMessage(slots: seq<Slot>): Bytes {
    WriteFields(Emit(slots))
  }

  /** One conditional append of an encoder. */
  function Put(b: Bytes, s: Slot): Bytes {
    if Shown(s) then b + WriteField(s.field) else b
  }

  /** The buffer of an encoder after its first `k` steps. */
  function Written(slots: seq<Slot>, k: nat): Bytes
    requires k <= |slots|
  {
    if k == 0 then [] else Put(Written(slots, k - 1), slots[k - 1])
  }

  /** An encoder that has taken every step of its table has written the message. */
  lemma WrittenAll(slots: seq<Slot>)
    ensures Written(slots, |slots|) == WriteMessage(slots)
  {
    WrittenPrefix(slots, |slots|);
    assert slots[..|slots|] == slots;
  }

  lemma {:induction false} WrittenPrefix(slots: seq<Slot>, k: nat)
    requires k <= |slots|
    ensures Written(slots, k) == WriteMessage(slots[..k])
  {
    hide WriteField;
    if k > 0 {
      WrittenPrefix(slots, k - 1);
      assert slots[..k][..k - 1] == slots[..k - 1];
      if Shown(slots[k - 1]) {
        var f := slots[k - 1].field;
        WriteAppend(Emit(slots[..k - 1]), [f]);
        WriteOne(f);
      }
    }
  }

  lemma WriteOne(f: Field)
    ensures WriteFields([f]) == WriteField(f)
  {
    var w := WriteField(f);
    assert [f][1..] == [];
    assert w + [] == w;
  }

  // ---------------------------------------------------------------- reading

  /** The bytes of singular field `n`: the last record wins, an absent field is empty. */
  function GetBytes(fs: seq<Field>, n: nat): Bytes {
    if fs == [] then []
    else
      var last := fs[|fs| - 1];
      if last.Len? && last.num == n then last.payload else GetBytes(fs[..|fs| - 1], n)
  }

  /** The number of singular field `n`: the last record wins, an absent field is zero. */
  function GetNumber(fs: seq<Field>, n: nat): nat {
    if fs == [] then 0
    else
      var last := fs[|fs| - 1];
      if last.Varint? && last.num == n then last.number else GetNumber(fs[..|fs| - 1], n)
  }

  /** All payloads of repeated field `n`, in order. */
  function GetRepeated(fs: seq<Field>, n: nat): seq<Bytes> {
    if fs == [] then []
    else
      var earlier, last := GetRepeated(fs[..|fs| - 1], n), fs[|fs| - 1];
      if last.Len? && last.num == n then earlier + [last.payload] else earlier
  }

  lemma ReadLast(fs: seq<Field>, f: Field, n: nat)
    ensures GetBytes(fs + [f], n) == if f.Len? && f.num == n then f.payload else GetBytes(fs, n)
    ensures GetNumber(fs + [f], n) == if f.Varint? && f.num == n then f.number else GetNumber(fs, n)
    ensures GetRepeated(fs + [f], n)
         == if f.Len? && f.num == n then GetRepeated(fs, n) + [f.payload] else GetRepeated(fs, n)
  {
    assert (fs + [f])[..|fs|] == fs;
  }

  /** The readers look at the last slot only if it is shown under the number they want. */
  lemma ReadLastSlot(slots: seq<Slot>, n: nat)
    requires slots != []
    ensures var init, f, shown := Emit(slots[..|slots| - 1]), slots[|slots| - 1].field, Shown(slots[|slots| - 1]);
            && GetBytes(Emit(slots), n) == (if shown && f.Len? && f.num == n then f.payload else GetBytes(init, n))
            && GetNumber(Emit(slots), n) == (if shown && f.Varint? && f.num == n then f.number else GetNumber(init, n))
            && GetRepeated(Emit(slots), n)
            == if shown && f.Len? && f.num == n then GetRepeated(init, n) + [f.payload] else GetRepeated(init, n)
  {
    ReadLast(Emit(slots[..|slots| - 1]), slots[|slots| - 1].field, n);
  }

  /** Omitting defaults loses nothing: a field used by one slot reads back as that slot's content. */
  lemma {:induction false} SlotReadsBack(slots: seq<Slot>, i: nat)
    requires i < |slots|
    requires forall j | 0 <= j < |slots| && j != i :: slots[j].field.num != slots[i].field.num
    ensures var f := slots[i].field;
            && (f.Len? ==> GetBytes(Emit(slots), f.num) == f.payload)
            && (f.Varint? ==> GetNumber(Emit(slots), f.num) == f.number)
  {
    var init, last := slots[..|slots| - 1], slots[|slots| - 1];
    ReadLastSlot(slots, slots[i].field.num);
    if i == |slots| - 1 {
      UnusedReadsDefault(init, last.field.num);
    } else {
      SlotReadsBack(init, i);
    }
  }

  lemma {:induction false} UnusedReadsDefault(slots: seq<Slot>, n: nat)
    requires forall j | 0 <= j < |slots| :: slots[j].field.num != n
    ensures GetBytes(Emit(slots), n) == [] && GetNumber(Emit(slots), n) == 0 && GetRepeated(Emit(slots), n) == []
  {
    if slots != [] {
      UnusedReadsDefault(slots[..|slots| - 1], n);
      ReadLastSlot(slots, n);
    }
  }

  /** The slots of a repeated field. */
  function RepeatedSlots(n: nat, payloads: seq<Bytes>): seq<Slot> {
    seq(|payloads|, i requires 0 <= i < |payloads| => Slot(Len(n, payloads[i]), true))
  }

  lemma {:induction false} RepeatedReadsBack(n: nat, payloads: seq<Bytes>, rest: seq<Slot>)
    requires forall j | 0 <= j < |rest| :: rest[j].field.num != n
    ensures GetRepeated(Emit(RepeatedSlots(n, payloads) + rest), n) == payloads
    decreases |payloads| + |rest|
  {
    hide GetRepeated, Emit, IsDefault;
    var slots := RepeatedSlots(n, payloads) + rest;
    if slots == [] {
      EmptyReadsNothing(n);
    } else {
      var init := slots[..|slots| - 1];
      ReadLastSlot(slots, n);
      if rest != [] {
        var rest' := rest[..|rest| - 1];
        assert slots[|slots| - 1] == rest[|rest| - 1];
        assert init == RepeatedSlots(n, payloads) + rest';
        RepeatedReadsBack(n, payloads, rest');
      } else {
        var payloads' := payloads[..|payloads| - 1];
        assert slots[|slots| - 1] == Slot(Len(n, payloads[|payloads| - 1]), true);
        assert init == RepeatedSlots(n, payloads') + [];
        RepeatedReadsBack(n, payloads', []);
        assert payloads == payloads' + [payloads[|payloads| - 1]];
      }
    }
  }

  lemma EmptyReadsNothing(n: nat)
    ensures GetRepeated(Emit([]), n) == []
  {
  }

  // ---------------------------------------------------------------- records as bytes hold them

  /** The field number times eight plus the wire type. */
  function TagOf(f: Field): nat {
    match f
    case Varint(num, _) => 8 * num
    case Len(num, _) => 8 * num + 2
  }

  function TagsOf(fs: seq<Field>): seq<nat> {
    seq(|fs|, i requires 0 <= i < |fs| => TagOf(fs[i]))
  }

  /** The bytes parse into records with exactly these tags. */
  ghost predicate HasTags(b: Bytes, tags: seq<nat>) {
    ReadFields(b).Some? && TagsOf(ReadFields(b).value) == tags
  }

  function Records(b: Bytes): seq<Field> {
    match ReadFields(b)
    case None => []
    case Some(fs) => fs
  }

  function Payload(b: Bytes, n: nat): Bytes {
    GetBytes(Records(b), n)
  }

  function When(present: bool, tag: nat): seq<nat> {
    if present then [tag] else []
  }

  /** The tags of the slots shown among the first `k`. */
  function TagsUpTo(slots: seq<Slot>, k: nat): seq<nat>
    requires k <= |slots|
  {
    if k == 0 then [] else TagsUpTo(slots, k - 1) + When(Shown(slots[k - 1]), TagOf(slots[k - 1].field))
  }

  lemma {:induction false} EmittedTags(slots: seq<Slot>, k: nat)
    requires k <= |slots|
    ensures TagsOf(Emit(slots[..k])) == TagsUpTo(slots, k)
  {
    hide TagOf, Shown;
    if k > 0 {
      EmittedTags(slots, k - 1);
      assert slots[..k][..k - 1] == slots[..k - 1];
    }
  }

  lemma TableTags(slots: seq<Slot>)
    ensures HasTags(WriteMessage(slots), TagsUpTo(slots, |slots|))
    ensures Records(WriteMessage(slots)) == Emit(slots)
  {
    hide TagOf, Emit, WriteFields, ReadFields;
    EmittedTags(slots, |slots|);
    assert slots[..|slots|] == slots;
    ReadFieldsBack(Emit(slots));
  }

  /** What slot `i` holds is found under its field number. */
  lemma SlotFound(slots: seq<Slot>, i: nat)
    requires i < |slots| && forall j | 0 <= j < |slots| && j != i :: slots[j].field.num != slots[i].field.num
    ensures var f := slots[i].field;
            && (f.Len? ==> Payload(WriteMessage(slots), f.num) == f.payload)
            && (f.Varint? ==> GetNumber(Records(WriteMessage(slots)), f.num) == f.number)
  {
    hide Emit, WriteFields, ReadFields, GetBytes, GetNumber, Records;
    TableTags(slots);
    SlotReadsBack(slots, i);
  }

  lemma {:induction false} TagsGrow(slots: seq<Slot>, k: nat)
    requires k <= |slots|
    ensures |TagsUpTo(slots, k)| <= |TagsUpTo(slots, |slots|)|
    decreases |slots| - k
  {
    if k < |slots| {
      TagsGrow(slots, k + 1);
    }
  }

  lemma NothingHasNoTags()
    ensures HasTags([], [])
  {
  }

  // ---------------------------------------------------------------- emission rules

  /**
   What a receiver that re-encodes canonically expects: field numbers never decrease, only `repeated`
   fields recur, a field holding its default is one of those that must be present, and these are.
   */
  ghost predicate EmissionRules(fs: seq<Field>, required: set<nat>, repeated: set<nat>) {
    && (forall i, j | 0 <= i < j < |fs| :: fs[i].num <= fs[j].num)
    && (forall i, j | 0 <= i < j < |fs| && fs[i].num == fs[j].num :: fs[i].num in repeated)
    && (forall i | 0 <= i < |fs| && IsDefault(fs[i]) :: fs[i].num in required + repeated)
    && (forall n | n in required :: exists i :: 0 <= i < |fs| && fs[i].num == n)
  }

  /** The bytes of a message parse into records that follow the rules. */
  ghost predicate MessageRules(b: Bytes, required: set<nat>, repeated: set<nat>) {
    ReadFields(b).Some? && EmissionRules(ReadFields(b).value, required, repeated)
  }

  /** The same rules on a table; `at` tells where each required field is. */
  ghost predicate TableRules(slots: seq<Slot>, at: map<nat, nat>, repeated: set<nat>) {
    && (forall i, j | 0 <= i < j < |slots| :: slots[i].field.num <= slots[j].field.num)
    && (forall i, j | 0 <= i < j < |slots| && slots[i].field.num == slots[j].field.num :: slots[i].field.num in repeated)
    && (forall i | 0 <= i < |slots| && slots[i].always :: slots[i].field.num in at.Keys + repeated)
    && (forall n | n in at :: at[n] < |slots| && slots[at[n]].always && slots[at[n]].field.num == n)
  }

  lemma WrittenByRules(slots: seq<Slot>, at: map<nat, nat>, repeated: set<nat>)
    requires TableRules(slots, at, repeated)
    ensures MessageRules(WriteMessage(slots), at.Keys, repeated)
  {
    var fs := Emit(slots);
    ReadFieldsBack(fs);
    var origin := EmittedFrom(slots);
    forall i | 0 <= i < |fs| && IsDefault(fs[i]) ensures fs[i].num in at.Keys + repeated {
      assert Shown(slots[origin[i]]);
    }
    forall n | n in at.Keys ensures exists i :: 0 <= i < |fs| && fs[i].num == n {
      AlwaysEmitted(slots, at[n]);
    }
  }

  /** Where each emitted field comes from, in table order. */
  ghost function EmittedFrom(slots: seq<Slot>): (at: seq<nat>)
    ensures |at| == |Emit(slots)|
    ensures forall i | 0 <= i < |at| :: at[i] < |slots| && Shown(slots[at[i]]) && slots[at[i]].field == Emit(slots)[i]
    ensures forall i, j | 0 <= i < j < |at| :: at[i] < at[j]
  {
    if slots == [] then []
    else
      var k := |slots| - 1;
      if Shown(slots[k]) then EmittedFrom(slots[..k]) + [k] else EmittedFrom(slots[..k])
  }

  lemma {:induction false} AlwaysEmitted(slots: seq<Slot>, k: nat)
    requires k < |slots| && slots[k].always
    ensures slots[k].field in Emit(slots)
  {
    if k < |slots| - 1 {
      AlwaysEmitted(slots[..|slots| - 1], k);
    }
  }
}
