/**
 The chain element of Ropfuscator/ChainElem.h: one link of a gadget chain,
 tagged with one of seven types, built by one factory per type, compared by
 a deliberately loose equality and rendered for debugging.

 The C++ struct keeps a type tag, a union of pointer/id payloads and an
 `int64_t value`. Here each tag is a constructor holding its own payload and
 the `value` field. The factories for GADGET, JMP_BLOCK, JMP_FALLTHROUGH and
 ESP_PUSH never set `value`, which C++ leaves indeterminate: they take that
 value as an explicit `indeterminate` argument, so nothing is assumed about it.
 */
module Chain {
  import Decimal

  newtype int64 = x: int | -0x8000_0000_0000_0000 <= x < 0x8000_0000_0000_0000
  newtype int32 = x: int | -0x8000_0000 <= x < 0x8000_0000

  const INT32_MAX: int32 := 0x7fff_ffff

  /** Non-owning pointers to a Microgadget, a GlobalValue and a MachineBasicBlock: equal exactly when identical. */
  newtype GadgetPtr = x: int | 0 <= x
  newtype GlobalPtr = x: int | 0 <= x
  newtype BlockPtr = x: int | 0 <= x

  /** `ChainElem::Type`. */
  datatype ElemType = GADGET | IMM_VALUE | IMM_GLOBAL | JMP_BLOCK | JMP_FALLTHROUGH | ESP_PUSH | ESP_OFFSET

  datatype ChainElem =
    | Gadget(microgadget: GadgetPtr, value: int64)
    | ImmValue(value: int64)
    | ImmGlobal(global: GlobalPtr, value: int64)
    | JmpBlock(jmptarget: BlockPtr, value: int64)
    | JmpFallthrough(value: int64)
    | EspPush(espId: int32, value: int64)
    | EspOffset(value: int64, espId: int32)
  {
    /** The `type` field. */
    function Type(): ElemType {
      match this
      case Gadget(_, _) => GADGET
      case ImmValue(_) => IMM_VALUE
      case ImmGlobal(_, _) => IMM_GLOBAL
      case JmpBlock(_, _) => JMP_BLOCK
      case JmpFallthrough(_) => JMP_FALLTHROUGH
      case EspPush(_, _) => ESP_PUSH
      case EspOffset(_, _) => ESP_OFFSET
    }
  }

  // ---------------------------------------------------------------------------
  // Factories

  function FromGadget(gadget: GadgetPtr, indeterminate: int64): (e: ChainElem)
    ensures e.Type() == GADGET && e.microgadget == gadget
  {
    Gadget(gadget, indeterminate)
  }

  function FromImmediate(value: int64): (e: ChainElem)
    ensures e.Type() == IMM_VALUE && e.value == value
  {
    ImmValue(value)
  }

  function FromGlobal(global: GlobalPtr, offset: int64): (e: ChainElem)
    ensures e.Type() == IMM_GLOBAL && e.global == global && e.value == offset
  {
    ImmGlobal(global, offset)
  }

  function FromJmpTarget(jmptarget: BlockPtr, indeterminate: int64): (e: ChainElem)
    ensures e.Type() == JMP_BLOCK && e.jmptarget == jmptarget
  {
    JmpBlock(jmptarget, indeterminate)
  }

  function CreateJmpFallthrough(indeterminate: int64): (e: ChainElem)
    ensures e.Type() == JMP_FALLTHROUGH
  {
    JmpFallthrough(indeterminate)
  }

  function CreateStackPointerOffset(value: int64, espId: int32): (e: ChainElem)
    ensures e.Type() == ESP_OFFSET && e.value == value && e.espId == espId
  {
    EspOffset(value, espId)
  }

  /**
   The function-static counter of `createStackPointerPush`, as an object: each
   push takes the next id, starting from 1.
   */
  class EspIdCounter {
    /** The last id handed out; 0 before the first push. */
    var espId: int32

    constructor ()
      ensures espId == 0
    {
      espId := 0;
    }

    /** Pre-increments the counter and tags a new ESP_PUSH element with it (signed overflow is undefined in C++). */
    method CreateStackPointerPush(indeterminate: int64) returns (e: ChainElem)
      requires espId < INT32_MAX
      modifies this
      ensures espId as int == old(espId) as int + 1
      ensures e.Type() == ESP_PUSH && e.espId == espId && e.value == indeterminate
    {
      espId := espId + 1;
      e := EspPush(espId, indeterminate);
    }
  }

  /** `n` pushes in a row draw the ids that follow the counter, in increasing order. */
  method CreateStackPointerPushes(counter: EspIdCounter, n: nat, indeterminate: int64) returns (es: seq<ChainElem>)
    requires counter.espId as int + n <= INT32_MAX as int
    modifies counter
    ensures counter.espId as int == old(counter.espId) as int + n
    ensures |es| == n
    ensures forall i :: 0 <= i < n ==> es[i].Type() == ESP_PUSH && es[i].espId as int == old(counter.espId) as int + i + 1
    ensures forall i, j :: 0 <= i < j < n ==> es[i].EspPush? && es[j].EspPush? && es[i].espId < es[j].espId
  {
    es := [];
    while |es| < n
      invariant |es| <= n
      invariant counter.espId as int == old(counter.espId) as int + |es|
      invariant forall i :: 0 <= i < |es| ==> es[i].Type() == ESP_PUSH && es[i].espId as int == old(counter.espId) as int + i + 1
    {
      var e := counter.CreateStackPointerPush(indeterminate);
      es := es + [e];
    }
  }

  // ---------------------------------------------------------------------------
  // Equality

  /** `operator==`: same tag, then the gadget pointer for GADGET and the `value` field for every other tag. */
  predicate Equal(a: ChainElem, b: ChainElem)
    ensures Equal(a, b) ==> a.Type() == b.Type()
  {
    if a.Type() != b.Type() then false
    else if a.Type() == GADGET then a.microgadget == b.microgadget
    else a.value == b.value
  }

  lemma EqualReflexive(a: ChainElem)
    ensures Equal(a, a)
  {
  }

  lemma EqualSymmetric(a: ChainElem, b: ChainElem)
    ensures Equal(a, b) <==> Equal(b, a)
  {
  }

  /** Transitive for every tag: `value` fields that C++ leaves indeterminate are supplied here, hence determined. */
  lemma EqualTransitive(a: ChainElem, b: ChainElem, c: ChainElem)
    requires Equal(a, b) && Equal(b, c)
    ensures Equal(a, c)
  {
  }

  lemma DifferentTypesNeverEqual(a: ChainElem, b: ChainElem)
    requires a.Type() != b.Type()
    ensures !Equal(a, b)
  {
  }

  /** GADGET elements are equal exactly when they point to the same gadget, whatever their `value`. */
  lemma GadgetEqualIffSamePointer(g1: GadgetPtr, u1: int64, g2: GadgetPtr, u2: int64)
    ensures Equal(FromGadget(g1, u1), FromGadget(g2, u2)) <==> g1 == g2
  {
  }

  /** Two elements of one non-GADGET tag are equal exactly when their `value` fields are. */
  lemma NonGadgetEqualIffSameValue(a: ChainElem, b: ChainElem)
    requires a.Type() == b.Type() && a.Type() != GADGET
    ensures Equal(a, b) <==> a.value == b.value
  {
  }

  lemma ImmediateEqualIffSameValue(x: int64, y: int64, u: int64)
    ensures Equal(FromImmediate(x), FromImmediate(y)) <==> x == y
    ensures !Equal(FromImmediate(x), CreateJmpFallthrough(u))
  {
  }

  lemma ImmediateExamples(u: int64)
    ensures Equal(FromImmediate(42), FromImmediate(42))
    ensures !Equal(FromImmediate(42), FromImmediate(43))
    ensures !Equal(FromImmediate(42), CreateJmpFallthrough(u)) && !Equal(CreateJmpFallthrough(u), FromImmediate(42))
  {
  }

  /** IMM_GLOBAL equality looks at the offset only: different globals with one offset compare equal. */
  lemma GlobalEqualityIgnoresSymbol(g1: GlobalPtr, g2: GlobalPtr, offset: int64)
    ensures Equal(FromGlobal(g1, offset), FromGlobal(g2, offset))
  {
  }

  /** ESP_OFFSET equality looks at the offset only: different ids with one offset compare equal. */
  lemma OffsetEqualityIgnoresId(value: int64, id1: int32, id2: int32)
    ensures Equal(CreateStackPointerOffset(value, id1), CreateStackPointerOffset(value, id2))
    ensures forall v2: int64 :: Equal(CreateStackPointerOffset(value, id1), CreateStackPointerOffset(v2, id1)) <==> value == v2
  {
  }

  /**
   For JMP_BLOCK, JMP_FALLTHROUGH and ESP_PUSH, equality compares only the value
   their factories leave indeterminate: the target and the id play no part.
   */
  lemma EqualityReadsIndeterminateValue(b1: BlockPtr, b2: BlockPtr, id1: int32, id2: int32, u1: int64, u2: int64)
    ensures Equal(FromJmpTarget(b1, u1), FromJmpTarget(b2, u2)) <==> u1 == u2
    ensures Equal(CreateJmpFallthrough(u1), CreateJmpFallthrough(u2)) <==> u1 == u2
    ensures Equal(EspPush(id1, u1), EspPush(id2, u2)) <==> u1 == u2
  {
  }

  // ---------------------------------------------------------------------------
  // Debug rendering

  /** How `debugPrint` formats what the element points to: `microgadget->asmInstr`, `*global`, `jmptarget->getNumber()`. */
  datatype Pointees = Pointees(
    asmInstr: GadgetPtr -> string,
    global: GlobalPtr -> string,
    blockNumber: BlockPtr -> int)

  /** The fixed text each tag's rendering starts with. */
  function Prefix(t: ElemType): string {
    match t
    case GADGET => "GADGET\t:"
    case IMM_VALUE => "IMM_VALUE\t:"
    case IMM_GLOBAL => "IMM_GLOBAL:\t:"
    case JMP_BLOCK => "JMP_BLOCK\t:"
    case JMP_FALLTHROUGH => "JMP_FALLTHROUGH\n"
    case ESP_PUSH => "ESP_PUSH\t:id="
    case ESP_OFFSET => "ESP_OFFSET\t:"
  }

  /** The text `debugPrint` writes for `e`. */
  function DebugPrint(e: ChainElem, p: Pointees): (s: string)
    ensures Prefix(e.Type()) <= s
    ensures s[|s| - 1] == '\n'
    ensures e.JmpFallthrough? ==> s == "JMP_FALLTHROUGH\n"
  {
    match e
    case Gadget(g, _) => "GADGET\t:" + p.asmInstr(g) + "\n"
    case ImmValue(v) => "IMM_VALUE\t:" + Decimal.IntToDec(v as int) + "\n"
    case ImmGlobal(g, v) => "IMM_GLOBAL:\t:" + p.global(g) + " + " + Decimal.IntToDec(v as int) + "\n"
    case JmpBlock(b, _) => "JMP_BLOCK\t:" + Decimal.IntToDec(p.blockNumber(b)) + "\n"
    case JmpFallthrough(_) => "JMP_FALLTHROUGH\n"
    case EspPush(id, _) => "ESP_PUSH\t:id=" + Decimal.IntToDec(id as int) + "\n"
    case EspOffset(v, id) => "ESP_OFFSET\t:" + Decimal.IntToDec(v as int) + ", id=" + Decimal.IntToDec(id as int) + "\n"
  }

  /** No tag's prefix starts another tag's prefix. */
  lemma PrefixesDistinguish(t1: ElemType, t2: ElemType)
    requires t1 != t2
    ensures !(Prefix(t1) <= Prefix(t2))
  {
    assert Prefix(t1)[0] != Prefix(t2)[0] || Prefix(t1)[4] != Prefix(t2)[4];
  }

  /** The rendering tells the tag: elements of different types never print alike. */
  lemma DebugPrintDeterminesType(a: ChainElem, b: ChainElem, p: Pointees)
    requires DebugPrint(a, p) == DebugPrint(b, p)
    ensures a.Type() == b.Type()
  {
    var s, pa, pb := DebugPrint(a, p), Prefix(a.Type()), Prefix(b.Type());
    if a.Type() != b.Type() {
      if |pa| <= |pb| {
        assert pa == s[..|pa|] && pb[..|pa|] == s[..|pa|];
        PrefixesDistinguish(a.Type(), b.Type());
        assert false;
      } else {
        assert pb == s[..|pb|] && pa[..|pb|] == s[..|pb|];
        PrefixesDistinguish(b.Type(), a.Type());
        assert false;
      }
    }
  }

  /** A line `prefix + text + "\n"` gives back its text. */
  lemma LineText(prefix: string, t1: string, t2: string)
    requires prefix + t1 + "\n" == prefix + t2 + "\n"
    ensures t1 == t2
  {
    var l := prefix + t1 + "\n";
    assert t1 == l[|prefix|..|l| - 1];
  }

  /** An IMM_VALUE rendering gives back its value. */
  lemma ImmValueRenderingLossless(x: int64, y: int64, p: Pointees)
    requires DebugPrint(FromImmediate(x), p) == DebugPrint(FromImmediate(y), p)
    ensures x == y
  {
    LineText("IMM_VALUE\t:", Decimal.IntToDec(x as int), Decimal.IntToDec(y as int));
    Decimal.IntToDecInjective(x as int, y as int);
  }

  /** An ESP_PUSH rendering gives back its id, so pushes with distinct ids print distinctly. */
  lemma EspPushRenderingLossless(id1: int32, id2: int32, u1: int64, u2: int64, p: Pointees)
    requires DebugPrint(EspPush(id1, u1), p) == DebugPrint(EspPush(id2, u2), p)
    ensures id1 == id2
  {
    LineText("ESP_PUSH\t:id=", Decimal.IntToDec(id1 as int), Decimal.IntToDec(id2 as int));
    Decimal.IntToDecInjective(id1 as int, id2 as int);
  }

  /** An ESP_OFFSET rendering gives back both its value and its id: the value's digits never hold the ',' after them. */
  lemma EspOffsetRenderingLossless(v1: int64, id1: int32, v2: int64, id2: int32, p: Pointees)
    requires DebugPrint(CreateStackPointerOffset(v1, id1), p) == DebugPrint(CreateStackPointerOffset(v2, id2), p)
    ensures v1 == v2 && id1 == id2
  {
    var d1, d2 := Decimal.IntToDec(v1 as int), Decimal.IntToDec(v2 as int);
    var e1, e2 := Decimal.IntToDec(id1 as int), Decimal.IntToDec(id2 as int);
    var t1, t2 := d1 + ", id=" + e1, d2 + ", id=" + e2;
    assert DebugPrint(CreateStackPointerOffset(v1, id1), p) == "ESP_OFFSET\t:" + t1 + "\n";
    assert DebugPrint(CreateStackPointerOffset(v2, id2), p) == "ESP_OFFSET\t:" + t2 + "\n";
    LineText("ESP_OFFSET\t:", t1, t2);
    assert t1[|d1|] == ',' && t2[|d2|] == ',';
    assert forall i :: 0 <= i < |d1| ==> t1[i] == d1[i];
    assert forall i :: 0 <= i < |d2| ==> t2[i] == d2[i];
    if |d1| != |d2| {
      assert false;
    }
    assert d1 == t1[..|d1|] == t2[..|d1|] == d2;
    assert e1 == t1[|d1| + 5..] == t2[|d1| + 5..] == e2;
    Decimal.IntToDecInjective(v1 as int, v2 as int);
    Decimal.IntToDecInjective(id1 as int, id2 as int);
  }
}
