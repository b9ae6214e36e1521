/** HID reports (kernel/src/usb/UsbHid.cpp): the report descriptor lays fields out bit by bit, and every
    report is taken apart along that layout. */
module Hid {
  import opened Words
  import opened Numbers

  datatype HidField = HidField(usage: word, bitOffset: half, bitLength: byte, isIndex: bool, isRelative: bool)

  /** The items of a report descriptor that bear on the layout, already decoded; `Other` has no effect. */
  datatype Item =
    | Fields(isInput: bool, isConstant: bool, isVariable: bool, isRelative: bool)
    | Collection
    | UsagePage(v: nat)
    | ReportSize(v: nat)
    | ReportCount(v: nat)
    | Usage(id: word)
    | UsageMinimum(id: word)
    | Other

  // ---------------------------------------------------------------- the layout

  /** One direction. Beside the fields: the size of every slot laid out so far, constants included, and
      which slot each field is. */
  datatype Side = Side(fields: seq<HidField>, slots: seq<nat>, at: seq<nat>, offset: half)

  const NOTHING := Side([], [], [], 0)

  datatype State = State(page: byte, size: byte, count: nat, usages: seq<word>, usageMin: word,
                         input: Side, output: Side)

  const INITIAL := State(0, 0, 0, [], 0, NOTHING, NOTHING)

  function Sum(ls: seq<nat>): nat { if ls == [] then 0 else Sum(ls[..|ls| - 1]) + ls[|ls| - 1] }

  /** The usage of the `n`th field of an item: the listed usages in order, the last one again and again, or
      counting up from the minimum when none is listed. */
  function UsageAt(usages: seq<word>, usageMin: word, isVariable: bool, n: nat): word {
    if !isVariable then usageMin
    else if usages == [] then (usageMin + n) % WORD32
    else usages[if n < |usages| then n else |usages| - 1]
  }

  /** Where slot `n` of an item starts, when the item starts at `start`. */
  function OffsetAt(start: half, n: nat, size: byte): half { (start + n * size) % WORD16 }

  /** The field that slot `n` of an item becomes. */
  function FieldAt(offset: half, st: State, item: Item, n: nat): HidField
    requires item.Fields?
  {
    HidField(UsageAt(st.usages, st.usageMin, item.isVariable, n),
             OffsetAt(offset, n, st.size), st.size, !item.isVariable, item.isRelative)
  }

  /** A constant slot becomes none. */
  function NewField(offset: half, st: State, item: Item, n: nat): seq<HidField>
    requires item.Fields?
  {
    if item.isConstant then [] else [FieldAt(offset, st, item, n)]
  }

  /** The fields of the first `n` slots of an item, their sizes and their numbers. */
  function NewFields(offset: half, st: State, item: Item, n: nat): seq<HidField>
    requires item.Fields?
  {
    if item.isConstant then [] else seq(n, k requires 0 <= k < n => FieldAt(offset, st, item, k))
  }

  function Repeat(size: nat, n: nat): seq<nat> { seq(n, k => size) }

  function From(start: nat, n: nat): seq<nat> { seq(n, k requires 0 <= k < n => start + k) }

  /** A side after `n` of the slots of an item. */
  function Lay(side: Side, st: State, item: Item, n: nat): Side
    requires item.Fields?
  {
    Side(side.fields + NewFields(side.offset, st, item, n), side.slots + Repeat(st.size, n),
         side.at + (if item.isConstant then [] else From(|side.slots|, n)), OffsetAt(side.offset, n, st.size))
  }

  /** Variable fields without a listed usage take theirs from the minimum, which moves on. */
  predicate CountsUp(item: Item, usages: seq<word>)
    requires item.Fields?
  {
    !item.isConstant && item.isVariable && usages == []
  }

  /** The effect of one item. */
  function Step(st: State, item: Item): State {
    match item
    case Fields(isInput, _, _, _) =>
      st.(usages := [],
          usageMin := if CountsUp(item, st.usages) then (st.usageMin + st.count) % WORD32 else st.usageMin,
          input := if isInput then Lay(st.input, st, item, st.count) else st.input,
          output := if isInput then st.output else Lay(st.output, st, item, st.count))
    case Collection => if st.usages == [] then st else st.(usages := st.usages[..|st.usages| - 1])
    case UsagePage(v) => st.(page := v % 256)
    case ReportSize(v) => st.(size := v % 256)
    case ReportCount(v) => st.(count := v)
    case Usage(v) => st.(usages := st.usages + [Qualified(st.page, v)])
    case UsageMinimum(v) => st.(usages := [], usageMin := Qualified(st.page, v))
    case Other => st
  }

  /** `(usagePage << 16) | v`, in 32 bits. */
  function Qualified(page: byte, v: word): word {
    PowersOfTwo();
    OrBound(v, page * WORD16, 32);
    Or(v, page * WORD16)
  }

  lemma QualifiedIs(page: byte, v: half)
    ensures Qualified(page, v) == page * WORD16 + v
  {
    PowersOfTwo();
    OrAdds(v, page, 16);
  }

  function Parse(items: seq<Item>): State {
    if items == [] then INITIAL else Step(Parse(items[..|items| - 1]), items[|items| - 1])
  }

  /** The device's two lists of fields, and the parser that fills them. */
  class UsbHidDevice {
    var input: seq<HidField>
    var output: seq<HidField>

    constructor ()
      ensures input == [] && output == []
    {
      input, output := [], [];
    }

    /** `ParseReport` */
    method ParseReport(items: seq<Item>)
      modifies this
      ensures input == old(input) + Parse(items).input.fields
      ensures output == old(output) + Parse(items).output.fields
    {
      hide Lay, NewFields, Qualified, OffsetAt;
      var page: byte, size: byte, count: nat := 0, 0, 0;
      var usages: seq<word>, usageMin: word := [], 0;
      var inputOffset: half, outputOffset: half := 0, 0;
      for n := 0 to |items|
        invariant var st := Parse(items[..n]);
          && page == st.page && size == st.size && count == st.count && usages == st.usages && usageMin == st.usageMin
          && inputOffset == st.input.offset && outputOffset == st.output.offset
          && input == old(input) + st.input.fields && output == old(output) + st.output.fields
      {
        assert items[..n + 1][..n] == items[..n];
        ghost var st := Parse(items[..n]);
        match items[n] {
          case Fields(isInput, _, _, _) =>
            if isInput {
              LayIs(st.input, st, items[n]);
              input, inputOffset, usageMin :=
                AddFields(items[n], size, count, usages, usageMin, input, inputOffset, st);
            } else {
              LayIs(st.output, st, items[n]);
              output, outputOffset, usageMin :=
                AddFields(items[n], size, count, usages, usageMin, output, outputOffset, st);
            }
            usages := [];
          case Collection => if usages != [] { usages := usages[..|usages| - 1]; }
          case UsagePage(v) => page := v % 256;
          case ReportSize(v) => size := v % 256;
          case ReportCount(v) => count := v;
          case Usage(v) => usages := usages + [Qualified(page, v)];
          case UsageMinimum(v) => usages, usageMin := [], Qualified(page, v);
          case Other =>
        }
      }
      assert items[..|items|] == items;
    }
  }

  lemma LayIs(side: Side, st: State, item: Item)
    requires item.Fields?
    ensures Lay(side, st, item, st.count).fields == side.fields + NewFields(side.offset, st, item, st.count)
    ensures Lay(side, st, item, st.count).offset == OffsetAt(side.offset, st.count, st.size)
  {
  }

  lemma MinimumMoves(minimum: word, n: nat)
    ensures ((minimum + n) % WORD32 + 1) % WORD32 == (minimum + (n + 1)) % WORD32
  {
  }

  /** The loop over the slots of an item: fields are appended to `t` and the offset moves on. */
  method AddFields(item: Item, size: byte, count: nat, listed: seq<word>, minimum: word, t: seq<HidField>,
      start: half, ghost st: State)
    returns (t': seq<HidField>, offset: half, usageMin: word)
    requires item.Fields?
    requires size == st.size && count == st.count && listed == st.usages && minimum == st.usageMin
    ensures t' == t + NewFields(start, st, item, count) && offset == OffsetAt(start, count, size)
    ensures usageMin == if CountsUp(item, listed) then (minimum + count) % WORD32 else minimum
  {
    hide NewFields, OffsetAt;
    OffsetMoves(start, 0, size);
    NewFieldsNone(start, st, item);
    t', offset, usageMin := t, start, minimum;
    var usages := listed;
    for n := 0 to count
      invariant t' == t + NewFields(start, st, item, n) && offset == OffsetAt(start, n, size)
      invariant usageMin == if CountsUp(item, listed) then (minimum + n) % WORD32 else minimum
      invariant usages == if !item.isConstant && item.isVariable && listed != [] then Left(listed, n) else listed
    {
      OffsetMoves(start, n, size);
      NewFieldsOne(start, st, item, n);
      MinimumMoves(minimum, n);
      if !item.isConstant {
        var currentUsage;
        if item.isVariable {
          if usages == [] {
            currentUsage := usageMin;
            usageMin := (usageMin + 1) % WORD32;
          } else {
            currentUsage := usages[0];
            if |usages| > 1 { usages := DropFirst(usages); }
          }
        } else {
          currentUsage := usageMin;
        }
        t' := t' + [HidField(currentUsage, offset, size, !item.isVariable, item.isRelative)];
      }
      offset := (offset + size) % WORD16;
    }
  }

  /** The usages that are left after `n` fields: the last one is never used up. */
  function Left(listed: seq<word>, n: nat): (r: seq<word>)
    requires listed != []
    ensures r != []
  {
    if n < |listed| then listed[n..] else listed[|listed| - 1..]
  }

  lemma NewFieldsNone(offset: half, st: State, item: Item)
    requires item.Fields?
    ensures NewFields(offset, st, item, 0) == []
  {
  }

  /** The usages move up by one. */
  method DropFirst(usages: seq<word>) returns (r: seq<word>)
    requires |usages| > 1
    ensures r == usages[1..]
  {
    r := usages;
    for n := 0 to |usages| - 1
      invariant |r| == |usages| && forall k :: 0 <= k < |r| ==> r[k] == usages[if k < n then k + 1 else k]
    {
      r := r[n := r[n + 1]];
    }
    r := r[..|r| - 1];
  }

  // ---------------------------------------------------------------- what a descriptor says

  /** Until an item sets them, page, size, count and minimum are 0 and no usage is listed. */
  lemma {:induction false} UnsetIsZero(items: seq<Item>)
    ensures (forall j :: 0 <= j < |items| ==> !items[j].UsagePage?) ==> Parse(items).page == 0
    ensures (forall j :: 0 <= j < |items| ==> !items[j].ReportSize?) ==> Parse(items).size == 0
    ensures (forall j :: 0 <= j < |items| ==> !items[j].ReportCount?) ==> Parse(items).count == 0
    ensures Parse([]).usages == [] && Parse([]).usageMin == 0
    decreases |items|
  {
    hide Lay, Qualified;
    if items != [] { UnsetIsZero(items[..|items| - 1]); }
  }

  lemma ParseOn(items: seq<Item>, item: Item)
    ensures Parse(items + [item]) == Step(Parse(items), item)
  {
    var items' := items + [item];
    assert items'[..|items|] == items;
  }

  /** Page, size and count are those of the last item that set them. */
  lemma {:induction false} LastSets(items: seq<Item>, k: nat)
    requires k < |items|
    ensures items[k].ReportSize? && (forall j :: k < j < |items| ==> !items[j].ReportSize?) ==>
              Parse(items).size == items[k].v % 256
    ensures items[k].ReportCount? && (forall j :: k < j < |items| ==> !items[j].ReportCount?) ==>
              Parse(items).count == items[k].v
    ensures items[k].UsagePage? && (forall j :: k < j < |items| ==> !items[j].UsagePage?) ==>
              Parse(items).page == items[k].v % 256
    decreases |items|
  {
    hide Lay, Qualified;
    var n := |items| - 1;
    if k < n { LastSets(items[..n], k); }
  }

  function SideOf(st: State, isInput: bool): Side { if isInput then st.input else st.output }

  /** An input or output item lays `count` slots of the size in force, in its own direction only. It uses the
      listed usages up; the minimum moves on only if the fields took theirs from it one by one. Page, size and
      count stay. */
  lemma ItemLays(items: seq<Item>, item: Item)
    requires item.Fields?
    ensures var st, st' := Parse(items), Parse(items + [item]);
            && SideOf(st', !item.isInput) == SideOf(st, !item.isInput)
            && SideOf(st', item.isInput).slots == SideOf(st, item.isInput).slots + seq(st.count, _ => st.size as nat)
            && st'.usages == [] && st'.page == st.page && st'.size == st.size && st'.count == st.count
            && st'.usageMin == (if item.isVariable && !item.isConstant && st.usages == [] then
                                  (st.usageMin + st.count) % WORD32
                                else st.usageMin)
  {
    ParseOn(items, item);
  }

  /** A group of equal fields, as somebody would describe it: its usages are listed, the last one standing for
      all that remain, or count up from the first one; a group that is not variable has the first one only. */
  datatype Group = Group(isInput: bool, isConstant: bool, isVariable: bool, isRelative: bool, page: byte, size: byte,
                         count: nat, listed: seq<half>, first: half)

  function FieldsOf(g: Group): Item { Fields(g.isInput, g.isConstant, g.isVariable, g.isRelative) }

  function Heading(g: Group): seq<Item> {
    [UsagePage(g.page), ReportSize(g.size), ReportCount(g.count), UsageMinimum(g.first)]
  }

  function Describe(g: Group): seq<Item> {
    Heading(g) + Listed(g.listed) + [FieldsOf(g)]
  }

  function Listed(us: seq<half>): (r: seq<Item>)
    ensures |r| == |us|
  {
    if us == [] then [] else Listed(us[..|us| - 1]) + [Usage(us[|us| - 1])]
  }

  /** The usage that field `n` of a group is to have. */
  function UsageOf(g: Group, n: nat): nat {
    if !g.isVariable then g.page * WORD16 + g.first
    else if g.listed == [] then (g.page * WORD16 + g.first + n) % WORD32
    else g.page * WORD16 + g.listed[if n < |g.listed| then n else |g.listed| - 1]
  }

  lemma {:induction false} ListedParses(items: seq<Item>, us: seq<half>)
    ensures var st, st' := Parse(items), Parse(items + Listed(us));
            && st' == st.(usages := st'.usages) && |st'.usages| == |st.usages| + |us|
            && forall n :: 0 <= n < |us| ==> st'.usages[|st.usages| + n] == st.page * WORD16 + us[n]
    decreases |us|
  {
    hide Qualified, Lay;
    if us == [] {
      assert items + Listed(us) == items;
    } else {
      var n := |us| - 1;
      ListedParses(items, us[..n]);
      assert items + Listed(us) == items + Listed(us[..n]) + [Usage(us[n])];
      ParseOn(items + Listed(us[..n]), Usage(us[n]));
      QualifiedIs(Parse(items).page, us[n]);
    }
  }

  /** `side'` is `side` with the group laid out behind it: `count` slots, and unless it is constant one field for
      each, with its usage, its flags and the bits of its slot. */
  ghost predicate Grows(side: Side, side': Side, g: Group) {
    && side'.slots == side.slots + seq(g.count, _ => g.size as nat)
    && side'.offset == (side.offset + g.count * g.size) % WORD16
    && side.fields <= side'.fields
    && |side'.fields| == |side.fields| + (if g.isConstant then 0 else g.count)
    && forall n :: 0 <= n < |side'.fields| - |side.fields| ==>
         side'.fields[|side.fields| + n] ==
         HidField(UsageOf(g, n), (side.offset + n * g.size) % WORD16, g.size, !g.isVariable, g.isRelative)
  }

  /** After whatever items, a group's description parses to the group, and leaves the other direction alone. */
  lemma DescribedIsParsed(items: seq<Item>, g: Group)
    ensures var st, st' := Parse(items), Parse(items + Describe(g));
            && SideOf(st', !g.isInput) == SideOf(st, !g.isInput)
            && Grows(SideOf(st, g.isInput), SideOf(st', g.isInput), g)
  {
    hide Parse, Lay, Grows, Listed, Describe;
    var start := items + Heading(g);
    Started(items, g);
    ListedParses(start, g.listed);
    DescribedAs(items, g);
    ParseOn(start + Listed(g.listed), FieldsOf(g));
    LaidAsDescribed(Parse(start + Listed(g.listed)), g);
  }

  lemma DescribedAs(items: seq<Item>, g: Group)
    ensures items + Describe(g) == items + Heading(g) + Listed(g.listed) + [FieldsOf(g)]
  {
  }

  lemma Started(items: seq<Item>, g: Group)
    ensures Parse(items + Heading(g)) ==
            Parse(items).(page := g.page, size := g.size, count := g.count, usages := [],
                          usageMin := g.page * WORD16 + g.first)
  {
    hide Parse;
    var i1 := items + [UsagePage(g.page)];
    var i2 := i1 + [ReportSize(g.size)];
    var i3 := i2 + [ReportCount(g.count)];
    assert items + Heading(g) == i3 + [UsageMinimum(g.first)];
    Sets(items, g.page, 0, g.first);
    Sets(i1, g.size, 0, g.first);
    Sets(i2, 0, g.count, g.first);
    Sets(i3, 0, 0, g.first);
  }

  lemma Sets(items: seq<Item>, v: byte, n: nat, id: half)
    ensures Parse(items + [UsagePage(v)]) == Parse(items).(page := v)
    ensures Parse(items + [ReportSize(v)]) == Parse(items).(size := v)
    ensures Parse(items + [ReportCount(n)]) == Parse(items).(count := n)
    ensures Parse(items + [UsageMinimum(id)]) ==
            Parse(items).(usages := [], usageMin := Parse(items).page * WORD16 + id)
  {
    hide Parse, Step;
    ParseOn(items, UsagePage(v));
    ParseOn(items, ReportSize(v));
    ParseOn(items, ReportCount(n));
    ParseOn(items, UsageMinimum(id));
    StepSets(Parse(items), v, n, id);
  }

  lemma StepSets(st: State, v: byte, n: nat, id: half)
    ensures Step(st, UsagePage(v)) == st.(page := v) && Step(st, ReportSize(v)) == st.(size := v)
    ensures Step(st, ReportCount(n)) == st.(count := n)
    ensures Step(st, UsageMinimum(id)) == st.(usages := [], usageMin := st.page * WORD16 + id)
  {
    hide Qualified, Lay;
    QualifiedIs(st.page, id);
  }

  lemma LaidAsDescribed(st: State, g: Group)
    requires st.size == g.size && st.count == g.count && st.usageMin == g.page * WORD16 + g.first
    requires |st.usages| == |g.listed|
    requires forall n :: 0 <= n < |g.listed| ==> st.usages[n] == g.page * WORD16 + g.listed[n]
    ensures Grows(SideOf(st, g.isInput), Lay(SideOf(st, g.isInput), st, FieldsOf(g), st.count), g)
  {
  }

  /** A collection takes the usage in front of it away again. */
  lemma CollectionTakes(items: seq<Item>, id: word)
    ensures Parse(items + [Usage(id)] + [Collection]) == Parse(items)
  {
    ParseOn(items, Usage(id));
    ParseOn(items + [Usage(id)], Collection);
    assert (Parse(items).usages + [Qualified(Parse(items).page, id)])[..|Parse(items).usages|] == Parse(items).usages;
  }

  // ---------------------------------------------------------------- what the layout guarantees

  /** Every field is one of the slots, in order, and starts where the sizes of the slots before it add up to,
      in 16 bits. */
  ghost predicate LaidOut(side: Side) {
    && side.offset == Sum(side.slots) % WORD16
    && |side.at| == |side.fields|
    && (forall i :: 0 <= i < |side.at| ==> side.at[i] < |side.slots|)
    && (forall i, j :: 0 <= i < j < |side.at| ==> side.at[i] < side.at[j])
    && forall i :: 0 <= i < |side.fields| ==> FieldFits(side, i)
  }

  ghost predicate FieldFits(side: Side, i: nat)
    requires i < |side.fields| == |side.at| && side.at[i] < |side.slots|
  {
    && side.fields[i].bitLength == side.slots[side.at[i]]
    && side.fields[i].bitOffset == Sum(side.slots[..side.at[i]]) % WORD16
  }

  /** One more slot. */
  function AddSlot(side: Side, size: byte, field: seq<HidField>): Side {
    Side(side.fields + field, side.slots + [size],
         side.at + seq(|field|, k => |side.slots|), (side.offset + size) % WORD16)
  }

  lemma LayOne(side: Side, st: State, item: Item, n: nat)
    requires item.Fields?
    ensures Lay(side, st, item, n + 1)
         == AddSlot(Lay(side, st, item, n), st.size, NewField(side.offset, st, item, n))
    ensures FieldAt(side.offset, st, item, n).bitOffset == Lay(side, st, item, n).offset
  {
    hide NewFields, Repeat, From, UsageAt, OffsetAt;
    RepeatOne(st.size, n);
    FromOne(|side.slots|, n);
    NewFieldsOne(side.offset, st, item, n);
    OffsetMoves(side.offset, n, st.size);
  }

  lemma RepeatOne(size: nat, n: nat)
    ensures Repeat(size, n + 1) == Repeat(size, n) + [size] && |Repeat(size, n)| == n
  {
  }

  lemma FromOne(start: nat, n: nat)
    ensures From(start, n + 1) == From(start, n) + [start + n]
  {
  }

  lemma NewFieldsOne(offset: half, st: State, item: Item, n: nat)
    requires item.Fields?
    ensures NewFields(offset, st, item, n + 1) == NewFields(offset, st, item, n) + NewField(offset, st, item, n)
  {
  }

  lemma OffsetMoves(start: half, n: nat, size: byte)
    ensures OffsetAt(start, 0, size) == start
    ensures (OffsetAt(start, n, size) + size) % WORD16 == OffsetAt(start, n + 1, size)
  {
  }

  lemma AddSlotKeeps(side: Side, size: byte, field: seq<HidField>)
    requires LaidOut(side)
    requires (field == [] || (|field| == 1 && field[0].bitLength == size && field[0].bitOffset == side.offset))
    ensures LaidOut(AddSlot(side, size, field))
  {
    var side', n := AddSlot(side, size, field), |side.slots|;
    assert side'.slots[..n] == side.slots;
    forall i | 0 <= i < |side'.fields| ensures FieldFits(side', i) {
      if i < |side.fields| {
        assert FieldFits(side, i);
        assert side'.slots[..side.at[i]] == side.slots[..side.at[i]];
      }
    }
  }

  lemma {:induction false} LayKeeps(side: Side, st: State, item: Item, n: nat)
    requires LaidOut(side) && item.Fields?
    ensures LaidOut(Lay(side, st, item, n))
    decreases n
  {
    hide LaidOut, Lay, AddSlot, UsageAt;
    if n == 0 {
      LayNone(side, st, item);
    } else {
      LayKeeps(side, st, item, n - 1);
      LayOne(side, st, item, n - 1);
      AddSlotKeeps(Lay(side, st, item, n - 1), st.size, NewField(side.offset, st, item, n - 1));
    }
  }

  lemma LayNone(side: Side, st: State, item: Item)
    requires LaidOut(side) && item.Fields?
    ensures Lay(side, st, item, 0) == side
  {
  }

  /** Both directions of every report descriptor are laid out. */
  lemma {:induction false} ParseLaysOut(items: seq<Item>)
    ensures LaidOut(Parse(items).input) && LaidOut(Parse(items).output)
    decreases |items|
  {
    if items != [] {
      hide LaidOut, Lay;
      var n := |items| - 1;
      ParseLaysOut(items[..n]);
      var st := Parse(items[..n]);
      if items[n].Fields? {
        LayKeeps(st.input, st, items[n], st.count);
        LayKeeps(st.output, st, items[n], st.count);
      }
    }
  }

  lemma {:induction false} SumGrows(ls: seq<nat>, i: nat, j: nat)
    requires i <= j <= |ls|
    ensures Sum(ls[..i]) <= Sum(ls[..j]) <= Sum(ls)
    ensures i < j ==> Sum(ls[..i]) + ls[i] <= Sum(ls[..j])
    decreases |ls|, j
  {
    assert ls[..|ls|] == ls;
    if j < |ls| {
      assert ls[..|ls| - 1][..j] == ls[..j] && ls[..|ls| - 1][..i] == ls[..i];
      SumGrows(ls[..|ls| - 1], i, j);
    } else if i < j {
      assert ls[..j - 1][..i] == ls[..i];
      SumGrows(ls, i, j - 1);
    }
  }

  /** As long as the sizes add up to less than 2^16 bits, every offset is the sum of the sizes before it, and
      the bits of different fields never overlap. */
  lemma FieldsAreDisjoint(items: seq<Item>, isInput: bool, i: nat, j: nat)
    requires var side := if isInput then Parse(items).input else Parse(items).output;
             i < j < |side.fields| && Sum(side.slots) < WORD16
    ensures var side := if isInput then Parse(items).input else Parse(items).output;
            && LaidOut(side) && side.at[i] < side.at[j] < |side.slots|
            && side.fields[i].bitOffset == Sum(side.slots[..side.at[i]])
            && side.fields[j].bitOffset == Sum(side.slots[..side.at[j]])
            && side.fields[i].bitOffset + side.fields[i].bitLength <= side.fields[j].bitOffset
            && side.fields[j].bitOffset + side.fields[j].bitLength <= Sum(side.slots)
  {
    hide Parse, Sum;
    ParseLaysOut(items);
    var side := if isInput then Parse(items).input else Parse(items).output;
    assert FieldFits(side, i) && FieldFits(side, j);
    SumGrows(side.slots, side.at[i], side.at[j]);
    SumGrows(side.slots, side.at[j], side.at[j] + 1);
  }
}
