/** Finding the EFI system partition (ESP) of a disk: among the direct children by the rule of the
    partition table's type, then inside children that carry a table of their own. */
module Esp {
  import opened Common
  import opened BlockDev

  /** ESP partition type GUID, section 5.3.3 of the UEFI Specification. */
  const ESP_GUID := "c12a7328-f81f-11d2-ba4b-00a0c93ec93b"

  /** MBR partition types taken as an ESP: 0xEF, section 5.2.2 of the UEFI Specification, and
      0x06, FAT16. */
  const ESP_ID_MBR := {0x06, 0xEF}

  function Lower(c: char): char {
    if 'A' <= c <= 'Z' then (c as int + 32) as char else c
  }

  predicate EqIgnoreCase(a: string, b: string) {
    |a| == |b| && forall i :: 0 <= i < |a| ==> Lower(a[i]) == Lower(b[i])
  }

  function HexDigit(c: char): Option<nat> {
    if '0' <= c <= '9' then Some(c as int - '0' as int)
    else if 'a' <= c <= 'f' then Some(c as int - 'a' as int + 10)
    else if 'A' <= c <= 'F' then Some(c as int - 'A' as int + 10)
    else None
  }

  predicate AllHex(s: string) {
    forall i :: 0 <= i < |s| ==> HexDigit(s[i]).Some?
  }

  function HexValue(s: string): nat
    requires AllHex(s)
  {
    if s == [] then 0 else HexValue(s[..|s| - 1]) * 16 + HexDigit(s[|s| - 1]).value
  }

  /** An 8-bit number in base 16: digits, at least one, after an optional plus sign. */
  function ParseU8Hex(s: string): Option<nat> {
    var digits := if s != [] && s[0] == '+' then s[1..] else s;
    if digits != [] && AllHex(digits) && HexValue(digits) < 256 then Some(HexValue(digits)) else None
  }

  predicate MatchesMbr(d: Device) {
    d.parttype.Some? &&
    var pt := d.parttype.value;
    var id := ParseU8Hex(if "0x" <= pt then pt[2..] else pt);
    id.Some? && id.value in ESP_ID_MBR
  }

  predicate MatchesType(d: Device, parttype: string) {
    d.parttype.Some? && EqIgnoreCase(d.parttype.value, parttype)
  }

  predicate Supported(pttype: Option<string>) {
    pttype.None? || pttype.value == "dos" || pttype.value == "gpt"
  }

  /** The rule of a table type; without a type, that of GPT. */
  predicate IsEsp(pttype: Option<string>, d: Device) {
    if pttype == Some("dos") then MatchesMbr(d) else MatchesType(d, ESP_GUID)
  }

  function FirstEsp(pttype: Option<string>, ds: seq<Device>): (r: Option<Device>)
    ensures r.Some? ==> r.value in ds && IsEsp(pttype, r.value)
    ensures r.Some? ==> exists k :: 0 <= k < |ds| && ds[k] == r.value && forall j :: 0 <= j < k ==> !IsEsp(pttype, ds[j])
    ensures r.None? <==> forall d :: d in ds ==> !IsEsp(pttype, d)
  {
    if ds == [] then None
    else if IsEsp(pttype, ds[0]) then Some(ds[0])
    else
      var r := FirstEsp(pttype, ds[1..]);
      assert ds == [ds[0]] + ds[1..];
      assert forall k :: 0 <= k < |ds[1..]| ==> ds[1..][k] == ds[k + 1];
      r
  }

  // -- What the partition type must read.

  const LOWER_DIGITS := "0123456789abcdef"
  const UPPER_DIGITS := "0123456789ABCDEF"

  ghost predicate IsDigit(c: char, k: nat) {
    k < 16 && (c == LOWER_DIGITS[k] || c == UPPER_DIGITS[k])
  }

  /** `s` is `n` in base 16, in any case and with any number of leading zeros. */
  ghost predicate Spells(s: string, n: nat)
    decreases |s|
  {
    && s != [] && IsDigit(s[|s| - 1], n % 16)
    && if |s| == 1 then n < 16 else Spells(s[..|s| - 1], n / 16)
  }

  function Printed(n: nat, digits: string): string
    requires |digits| == 16
  {
    if n < 16 then [digits[n]] else Printed(n / 16, digits) + [digits[n % 16]]
  }

  lemma {:induction false} PrintedSpells(n: nat)
    ensures Spells(Printed(n, LOWER_DIGITS), n) && Spells(Printed(n, UPPER_DIGITS), n)
  {
    if n >= 16 {
      PrintedSpells(n / 16);
      var a, b := Printed(n, LOWER_DIGITS), Printed(n, UPPER_DIGITS);
      assert a[..|a| - 1] == Printed(n / 16, LOWER_DIGITS) && b[..|b| - 1] == Printed(n / 16, UPPER_DIGITS);
    }
  }

  lemma DigitIff(c: char, k: nat)
    ensures HexDigit(c) == Some(k) <==> IsDigit(c, k)
  {
  }

  lemma DigitSplit(v: nat, d: nat, n: nat)
    requires d < 16
    ensures v * 16 + d == n <==> v == n / 16 && d == n % 16
  {
  }

  lemma HexSnoc(s: string)
    requires s != []
    ensures var init, c := s[..|s| - 1], s[|s| - 1]; AllHex(s) <==> AllHex(init) && HexDigit(c).Some?
  {
    assert s == s[..|s| - 1] + [s[|s| - 1]];
  }

  lemma ValueIff(s: string, n: nat)
    requires s != [] && AllHex(s)
    ensures AllHex(s[..|s| - 1])
    ensures HexValue(s) == n <==> HexValue(s[..|s| - 1]) == n / 16 && HexDigit(s[|s| - 1]) == Some(n % 16)
  {
    DigitSplit(HexValue(s[..|s| - 1]), HexDigit(s[|s| - 1]).value, n);
  }

  lemma {:induction false} SpellsIff(s: string, n: nat)
    ensures Spells(s, n) <==> s != [] && AllHex(s) && HexValue(s) == n
    decreases |s|
  {
    if s != [] {
      HexSnoc(s);
      DigitIff(s[|s| - 1], n % 16);
      if AllHex(s) {
        ValueIff(s, n);
      }
      if |s| == 1 {
        assert s[..0] == [] && HexValue([]) == 0;
      } else {
        SpellsIff(s[..|s| - 1], n / 16);
      }
    }
  }

  function StripPlus(s: string): string {
    if "+" <= s then s[1..] else s
  }

  /** The parser reads exactly the spellings of a number below 256, a plus sign before it or not. */
  lemma ParseIff(s: string, n: nat)
    ensures ParseU8Hex(s) == Some(n) <==> n < 256 && Spells(StripPlus(s), n)
  {
    SpellsIff(StripPlus(s), n);
  }

  ghost predicate SpellsEspId(s: string) {
    Spells(StripPlus(s), 0xEF) || Spells(StripPlus(s), 0x06)
  }

  /** The type of an ESP on a disk with an MBR: one of two numbers, `0x` before it or not. */
  ghost predicate MbrText(t: string) {
    SpellsEspId(t) || ("0x" <= t && SpellsEspId(t[2..]))
  }

  /** `a` is `l`, or the capital of the small letter `l`. */
  ghost predicate InAnyCase(a: char, l: char) {
    a == l || (0x61 <= l as int <= 0x7A && a as int == l as int - 0x20)
  }

  const GUID := "c12a7328-f81f-11d2-ba4b-00a0c93ec93b"

  /** The type of an ESP on a disk with a GPT: its GUID, in any case. */
  ghost predicate GuidText(t: string) {
    |t| == 36 && forall i :: 0 <= i < 36 ==> InAnyCase(t[i], GUID[i])
  }

  lemma MbrTextIff(d: Device)
    ensures MatchesMbr(d) <==> d.parttype.Some? && MbrText(d.parttype.value)
  {
    if d.parttype.Some? {
      var pt := d.parttype.value;
      var s := if "0x" <= pt then pt[2..] else pt;
      ParseIff(s, 0xEF);
      ParseIff(s, 0x06);
      if "0x" <= pt {
        NoSpelling(pt, 0xEF);
        NoSpelling(pt, 0x06);
      }
    }
  }

  lemma NoSpelling(s: string, n: nat)
    requires "0x" <= s
    ensures !Spells(StripPlus(s), n)
  {
    assert s[0] == "0x"[0] && s[1] == "0x"[1];
    assert StripPlus(s) == s && HexDigit(s[1]).None?;
    SpellsIff(s, n);
  }

  lemma CaseIff(a: char, l: char)
    requires Lower(l) == l
    ensures Lower(a) == l <==> InAnyCase(a, l)
  {
    assert Lower(a) as int == if 'A' <= a <= 'Z' then a as int + 32 else a as int;
    assert Lower(l) as int == if 'A' <= l <= 'Z' then l as int + 32 else l as int;
  }

  lemma GuidIsLower()
    ensures ESP_GUID == GUID && |GUID| == 36
    ensures forall i :: 0 <= i < 36 ==> Lower(GUID[i]) == GUID[i]
  {
  }

  lemma GuidTextIff(d: Device)
    ensures MatchesType(d, ESP_GUID) <==> d.parttype.Some? && GuidText(d.parttype.value)
  {
    GuidIsLower();
    if d.parttype.Some? && |d.parttype.value| == 36 {
      var t := d.parttype.value;
      forall i | 0 <= i < 36 ensures Lower(t[i]) == Lower(GUID[i]) <==> InAnyCase(t[i], GUID[i]) {
        CaseIff(t[i], GUID[i]);
      }
    }
  }

  /** The rule for the type of a child, by the type of the table that it is in. */
  ghost predicate TableRule(pttype: Option<string>, e: Device) {
    && e.parttype.Some?
    && if pttype == Some("dos") then MbrText(e.parttype.value) else GuidText(e.parttype.value)
  }

  ghost predicate KnownTable(pttype: Option<string>) {
    pttype in {None, Some("dos"), Some("gpt")}
  }

  lemma RuleIff(pttype: Option<string>, e: Device)
    ensures IsEsp(pttype, e) <==> TableRule(pttype, e)
  {
    MbrTextIff(e);
    GuidTextIff(e);
  }

  /** No text is both: an MBR number never makes an ESP on a disk with a GPT. */
  lemma GuidIsNoMbrId(t: string)
    requires GuidText(t)
    ensures !MbrText(t)
  {
    GuidIsLower();
    assert InAnyCase(t[0], GUID[0]) && GUID[0] == 'c' && InAnyCase(t[8], GUID[8]) && GUID[8] == '-';
    assert StripPlus(t) == t && !("0x" <= t);
    assert HexDigit(t[8]).None? && !AllHex(t);
    SpellsIff(t, 0xEF);
    SpellsIff(t, 0x06);
  }

  lemma KnownIff(pttype: Option<string>)
    ensures Supported(pttype) <==> KnownTable(pttype)
  {
  }

  datatype EspResult = Found(device: Device) | Absent | Unsupported(pttype: string)

  function FindPartitionOfEsp(d: Device): EspResult
    decreases d
  {
    match d.children
    case Unlisted => Absent
    case Listed(cs) =>
      if !Supported(d.pttype) then Unsupported(d.pttype.value)
      else
        match FirstEsp(d.pttype, cs)
        case Some(e) => Found(e)
        case None => FindInTables(cs)
  }

  /** The first answer from children that carry a partition table. */
  function FindInTables(cs: seq<Device>): EspResult
    decreases cs
  {
    if cs == [] then Absent
    else
      var here := if cs[0].pttype.Some? then FindPartitionOfEsp(cs[0]) else Absent;
      if here.Absent? then FindInTables(cs[1..]) else here
  }

  // -- The nodes that the search may look at, and what it looks for in each.

  ghost predicate Reaches(d: Device, t: Device)
    decreases d
  {
    t == d || (d.children.Listed? && ReachesAny(d.children.devices, t))
  }

  ghost predicate ReachesAny(cs: seq<Device>, t: Device)
    decreases cs
  {
    cs != [] && ((cs[0].pttype.Some? && Reaches(cs[0], t)) || ReachesAny(cs[1..], t))
  }

  function Look(t: Device): EspResult {
    match t.children
    case Unlisted => Absent
    case Listed(cs) =>
      if !Supported(t.pttype) then Unsupported(t.pttype.value)
      else var e := FirstEsp(t.pttype, cs); if e.Some? then Found(e.value) else Absent
  }

  /** The reachable nodes, each before those below it. */
  function Visit(d: Device): seq<Device>
    decreases d
  {
    [d] + if d.children.Listed? then VisitAll(d.children.devices) else []
  }

  function VisitAll(cs: seq<Device>): seq<Device>
    decreases cs
  {
    if cs == [] then [] else (if cs[0].pttype.Some? then Visit(cs[0]) else []) + VisitAll(cs[1..])
  }

  /** The first answer other than `Absent`. */
  function Scan(ts: seq<Device>): EspResult {
    if ts == [] then Absent else if Look(ts[0]).Absent? then Scan(ts[1..]) else Look(ts[0])
  }

  lemma {:induction false} ScanConcat(a: seq<Device>, b: seq<Device>)
    ensures Scan(a + b) == if Scan(a).Absent? then Scan(b) else Scan(a)
    decreases |a|
  {
    if a == [] {
      assert a + b == b;
    } else {
      assert (a + b)[1..] == a[1..] + b;
      ScanConcat(a[1..], b);
    }
  }

  /** The recursive search is one scan over the reachable nodes in preorder. */
  lemma {:induction false} SearchIsScan(d: Device)
    ensures FindPartitionOfEsp(d) == Scan(Visit(d))
    decreases d
  {
    if d.children.Listed? {
      var cs := d.children.devices;
      SearchAllIsScan(cs);
      ScanConcat([d], VisitAll(cs));
      assert Scan([d]) == Look(d);
    } else {
      assert [d] + [] == [d];
    }
  }

  lemma {:induction false} SearchAllIsScan(cs: seq<Device>)
    ensures FindInTables(cs) == Scan(VisitAll(cs))
    decreases cs
  {
    if cs != [] {
      var first := if cs[0].pttype.Some? then Visit(cs[0]) else [];
      if cs[0].pttype.Some? {
        SearchIsScan(cs[0]);
      }
      SearchAllIsScan(cs[1..]);
      ScanConcat(first, VisitAll(cs[1..]));
    }
  }

  lemma {:induction false} VisitExact(d: Device, t: Device)
    ensures t in Visit(d) <==> Reaches(d, t)
    decreases d
  {
    if d.children.Listed? {
      VisitAllExact(d.children.devices, t);
    }
  }

  lemma {:induction false} VisitAllExact(cs: seq<Device>, t: Device)
    ensures t in VisitAll(cs) <==> ReachesAny(cs, t)
    decreases cs
  {
    if cs != [] {
      VisitAllExact(cs[1..], t);
      if cs[0].pttype.Some? {
        VisitExact(cs[0], t);
      }
    }
  }

  lemma {:induction false} ScanMeaning(ts: seq<Device>)
    ensures Scan(ts).Absent? <==> forall t :: t in ts ==> Look(t).Absent?
    ensures !Scan(ts).Absent? ==> exists t :: t in ts && Look(t) == Scan(ts)
    decreases |ts|
  {
    if ts != [] {
      ScanMeaning(ts[1..]);
      assert ts == [ts[0]] + ts[1..];
      if Look(ts[0]).Absent? && !Scan(ts).Absent? {
        var t :| t in ts[1..] && Look(t) == Scan(ts[1..]);
        assert t in ts;
      } else {
        assert ts[0] in ts;
      }
    }
  }

  /** A found device is a child of a reachable node with a known table, and its type reads as the
      rule of that table says. */
  lemma FoundIsEsp(d: Device)
    requires FindPartitionOfEsp(d).Found?
    ensures var e := FindPartitionOfEsp(d).device;
            exists t :: Reaches(d, t) && t.children.Listed? && KnownTable(t.pttype) && e in t.children.devices && TableRule(t.pttype, e)
  {
    SearchIsScan(d);
    ScanMeaning(Visit(d));
    var t :| t in Visit(d) && Look(t) == Scan(Visit(d));
    VisitExact(d, t);
    RuleIff(t.pttype, FindPartitionOfEsp(d).device);
    KnownIff(t.pttype);
  }

  /** Nothing is found exactly if every reachable table is of a known type and has no match. */
  lemma AbsentIff(d: Device)
    ensures FindPartitionOfEsp(d).Absent? <==>
            forall t :: Reaches(d, t) && t.children.Listed? ==>
              KnownTable(t.pttype) && forall c :: c in t.children.devices ==> !TableRule(t.pttype, c)
  {
    SearchIsScan(d);
    ScanMeaning(Visit(d));
    forall t ensures t in Visit(d) <==> Reaches(d, t) { VisitExact(d, t); }
    forall t, c ensures IsEsp(t, c) <==> TableRule(t, c) { RuleIff(t, c); }
    forall t ensures Supported(t) <==> KnownTable(t) { KnownIff(t); }
  }

  /** The first child whose type reads right is the answer, whatever lies below the others. */
  lemma DirectChildFound(d: Device, k: nat)
    requires d.children.Listed? && k < |d.children.devices| && KnownTable(d.pttype)
    requires TableRule(d.pttype, d.children.devices[k])
    requires forall j :: 0 <= j < k ==> !TableRule(d.pttype, d.children.devices[j])
    ensures FindPartitionOfEsp(d) == Found(d.children.devices[k])
  {
    var cs := d.children.devices;
    forall c ensures IsEsp(d.pttype, c) <==> TableRule(d.pttype, c) { RuleIff(d.pttype, c); }
    KnownIff(d.pttype);
    var e := FirstEsp(d.pttype, cs);
    assert cs[k] in cs;
    var i :| 0 <= i < |cs| && cs[i] == e.value && forall j :: 0 <= j < i ==> !IsEsp(d.pttype, cs[j]);
    assert i == k;
  }

  /** A disk with an MBR and one partition, its type printed in either case. */
  lemma DosDiskFound(name: string, child: Device, id: nat)
    requires id == 0xEF || id == 0x06
    requires child.parttype in {Some(Printed(id, LOWER_DIGITS)), Some(Printed(id, UPPER_DIGITS)),
                                Some("0x" + Printed(id, LOWER_DIGITS)), Some("0x" + Printed(id, UPPER_DIGITS))}
    ensures FindPartitionOfEsp(Device(name, None, None, Some("dos"), Listed([child]))) == Found(child)
  {
    var d := Device(name, None, None, Some("dos"), Listed([child]));
    PrintedSpells(id);
    PlainPrint(id, LOWER_DIGITS);
    PlainPrint(id, UPPER_DIGITS);
    DirectChildFound(d, 0);
  }

  lemma PlainPrint(n: nat, digits: string)
    requires digits == LOWER_DIGITS || digits == UPPER_DIGITS
    ensures var s := Printed(n, digits); s != "" && !("+" <= s) && ("0x" + s)[2..] == s
  {
    PrintedSpells(n);
    var s := Printed(n, digits);
    SpellsIff(s, n);
    assert HexDigit(s[0]).Some?;
  }

  /** A table of any other type is an error that names it. */
  lemma OtherTableRefused(d: Device)
    requires d.children.Listed? && !KnownTable(d.pttype)
    ensures d.pttype.Some? && FindPartitionOfEsp(d) == Unsupported(d.pttype.value)
  {
    KnownIff(d.pttype);
  }

  /** An error names the type of a reachable unsupported table. */
  lemma UnsupportedIsReal(d: Device)
    requires FindPartitionOfEsp(d).Unsupported?
    ensures exists t :: Reaches(d, t) && t.children.Listed? && !KnownTable(t.pttype) &&
                        t.pttype == Some(FindPartitionOfEsp(d).pttype)
  {
    SearchIsScan(d);
    ScanMeaning(Visit(d));
    var t :| t in Visit(d) && Look(t) == Scan(Visit(d));
    VisitExact(d, t);
    KnownIff(t.pttype);
  }
}
