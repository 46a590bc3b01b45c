/**
 * Stacky McStackface: a filter that draws the current function's stack
 * frame while debugging.  Modelled here: reading IDA's version string,
 * choosing the stack and instruction pointer registers, the frame's
 * members keyed by address and the lookup of the member around an address,
 * the palette and arrow toggles, the flash hook's lifecycle, and the side
 * panel.  Register values, the function, its frame and its name come in as
 * inputs.
 */
module Sms {
  import opened Common
  import opened Bits

  // ---------------------------------------------------------------------
  // Version string

  predicate IsDigit(c: char)
  {
    '0' <= c <= '9'
  }

  predicate AllDigits(s: string)
  {
    forall i | 0 <= i < |s| :: IsDigit(s[i])
  }

  /** The value of a string of decimal digits. */
  function ParseNat(s: string): nat
    requires AllDigits(s)
  {
    if s == [] then 0 else ParseNat(s[..|s| - 1]) * 10 + (s[|s| - 1] - '0') as nat
  }

  /** The decimal digits of `n`, without leading zeros. */
  function ShowNat(n: nat): (s: string)
    ensures s != [] && AllDigits(s)
  {
    if n < 10 then [('0' as int + n) as char] else ShowNat(n / 10) + [('0' as int + n % 10) as char]
  }

  /** Printing a number and reading it back gives the number. */
  lemma {:induction false} ParseShow(n: nat)
    ensures ParseNat(ShowNat(n)) == n
  {
    var s := ShowNat(n);
    if n >= 10 {
      ParseShow(n / 10);
      assert s[..|s| - 1] == ShowNat(n / 10);
    }
  }

  /** `s.split(sep)`: the pieces between the separators, empty ones included. */
  function Split(s: string, sep: char): (parts: seq<string>)
    ensures |parts| >= 1
  {
    if s == [] then [[]]
    else
      var rest := Split(s[1..], sep);
      if s[0] == sep then [[]] + rest else [[s[0]] + rest[0]] + rest[1..]
  }

  /** A string without the separator is one piece. */
  lemma {:induction false} SplitNoSep(s: string, sep: char)
    requires sep !in s
    ensures Split(s, sep) == [s]
  {
    if s != [] {
      assert sep !in s[1..] by { assert forall i | 0 <= i < |s[1..]| :: s[1..][i] == s[i + 1]; }
      SplitNoSep(s[1..], sep);
      assert [s[0]] + s[1..] == s;
    }
  }

  /** A piece without the separator, then the separator, splits off in front. */
  lemma {:induction false} SplitJoin(a: string, b: string, sep: char)
    requires sep !in a
    ensures Split(a + [sep] + b, sep) == [a] + Split(b, sep)
  {
    if a == [] {
      assert a + [sep] + b == [sep] + b;
      assert ([sep] + b)[1..] == b;
    } else {
      assert sep !in a[1..] by { assert forall i | 0 <= i < |a[1..]| :: a[1..][i] == a[i + 1]; }
      assert (a + [sep] + b)[1..] == a[1..] + [sep] + b;
      SplitJoin(a[1..], b, sep);
      assert [a[0]] + a[1..] == a;
    }
  }

  /** The pieces glued back together with the separator between them. */
  function Join(parts: seq<string>, sep: char): string
  {
    if |parts| == 0 then [] else if |parts| == 1 then parts[0] else parts[0] + [sep] + Join(parts[1..], sep)
  }

  /** Splitting loses nothing: joining the pieces gives the string back. */
  lemma {:induction false} JoinSplit(s: string, sep: char)
    ensures Join(Split(s, sep), sep) == s
  {
    if s != [] {
      var rest := Split(s[1..], sep);
      JoinSplit(s[1..], sep);
      if s[0] == sep {
        assert ([[]] + rest)[1..] == rest;
        assert [sep] + s[1..] == s;
      } else if |rest| == 1 {
        assert [s[0]] + s[1..] == s;
      } else {
        var parts := [[s[0]] + rest[0]] + rest[1..];
        assert parts[1..] == rest[1..];
        assert Join(rest, sep) == rest[0] + [sep] + Join(rest[1..], sep);
        assert [s[0]] + s[1..] == s;
      }
    }
  }

  /** A piece `int()` reads: at least one digit, and digits only. */
  predicate DigitPiece(s: string)
  {
    s != [] && AllDigits(s)
  }

  /** A version string: two digit pieces with a dot between them. */
  ghost predicate VersionString(ver: string)
  {
    exists a, b | DigitPiece(a) && DigitPiece(b) :: ver == a + "." + b
  }

  /** Two digit pieces with a dot between them split into exactly those pieces. */
  lemma DigitsSplit(a: string, b: string)
    requires DigitPiece(a) && DigitPiece(b)
    ensures Split(a + "." + b, '.') == [a, b]
  {
    assert '.' !in a by { assert forall i | 0 <= i < |a| :: IsDigit(a[i]); }
    assert '.' !in b by { assert forall i | 0 <= i < |b| :: IsDigit(b[i]); }
    SplitJoin(a, b, '.');
    SplitNoSep(b, '.');
    assert a + "." + b == a + ['.'] + b;
  }

  /** Every way of writing `ver` as two digit pieces around a dot is the split. */
  lemma AllDigitsSplit(ver: string)
    ensures forall a, b | DigitPiece(a) && DigitPiece(b) && ver == a + "." + b :: Split(ver, '.') == [a, b]
  {
    forall a, b | DigitPiece(a) && DigitPiece(b) && ver == a + "." + b
      ensures Split(ver, '.') == [a, b]
    {
      DigitsSplit(a, b);
    }
  }

  /**
   * `get_ida_version`: the kernel version `major.minor` as two numbers.
   * Anything but exactly two pieces of digits is the `ValueError` the
   * unpacking or `int` raises, here `None`.  A version is read exactly
   * from a version string, and then it is the values of its two pieces.
   */
  function GetIdaVersion(ver: string): (r: Option<(int, int)>)
    ensures r.Some? <==> VersionString(ver)
    ensures forall a, b | DigitPiece(a) && DigitPiece(b) && ver == a + "." + b :: r == Some((ParseNat(a), ParseNat(b)))
  {
    var parts := Split(ver, '.');
    JoinSplit(ver, '.');
    AllDigitsSplit(ver);
    if |parts| == 2 && DigitPiece(parts[0]) && DigitPiece(parts[1])
    then
      assert ver == parts[0] + "." + parts[1] by { assert parts[1..] == [parts[1]]; }
      Some((ParseNat(parts[0]), ParseNat(parts[1])))
    else None
  }

  /** `is_ida70`: whether the version is 7.0; `None` when reading the version fails. */
  function IsIda70(ver: string): (r: Option<bool>)
    ensures r.None? <==> GetIdaVersion(ver).None?
  {
    match GetIdaVersion(ver)
    case None => None
    case Some(v) => Some(v.0 == 7 && v.1 == 0)
  }

  /** Every printed `major.minor` reads back as itself. */
  lemma VersionRoundTrip(major: nat, minor: nat)
    ensures GetIdaVersion(ShowNat(major) + "." + ShowNat(minor)) == Some((major, minor))
  {
    ParseShow(major);
    ParseShow(minor);
  }

  /**
   * A version string is IDA 7.0 exactly when its pieces read as 7 and 0,
   * leading zeros included.
   */
  lemma Ida70Exactly(a: string, b: string)
    requires DigitPiece(a) && DigitPiece(b)
    ensures IsIda70(a + "." + b) == Some(ParseNat(a) == 7 && ParseNat(b) == 0)
  {
    var v := GetIdaVersion(a + "." + b);
    assert v == Some((ParseNat(a), ParseNat(b)));
  }

  /** `"07.00"` is 7.0 too, and `"7.1"` is not. */
  lemma Ida70Padded()
    ensures IsIda70("07.00") == Some(true)
    ensures IsIda70("7.1") == Some(false)
  {
    assert DigitPiece("07") && DigitPiece("00") && DigitPiece("7") && DigitPiece("1");
    assert ParseNat("07") == 7 && ParseNat("00") == 0 && ParseNat("7") == 7 && ParseNat("1") == 1;
    assert "07.00" == "07" + "." + "00";
    assert "7.1" == "7" + "." + "1";
    Ida70Exactly("07", "00");
    Ida70Exactly("7", "1");
  }

  // ---------------------------------------------------------------------
  // Registers

  /**
   * The stack pointer register `_get_sp_val` reads, by the lower-cased
   * processor name and bitness: none for other processors.
   */
  function SpRegName(procName: string, is64: bool, is32: bool): (r: string)
    ensures r != "" <==> procName == "metapc" || procName == "arm"
  {
    if procName == "metapc" then (if is64 then "rsp" else if is32 then "esp" else "sp")
    else if procName == "arm" then "sp"
    else ""
  }

  /** The instruction pointer register `_get_ip_val` reads. */
  function IpRegName(procName: string, is64: bool, is32: bool): (r: string)
    ensures r != "" <==> procName == "metapc" || procName == "arm"
    ensures r != "" ==> r != SpRegName(procName, is64, is32)
  {
    if procName == "metapc" then (if is64 then "rip" else if is32 then "eip" else "ip")
    else if procName == "arm" then "pc"
    else ""
  }

  /** Python truthiness of an optional register value: `None` and 0 are false. */
  predicate Truthy(v: Option<int>)
  {
    v.Some? && v.value != 0
  }

  // ---------------------------------------------------------------------
  // Frame members

  /** A frame member as IDA describes it: name, start and end offset in the frame. */
  datatype RawMember = RawMember(name: string, soff: int, eoff: int)

  /** The function around the instruction pointer: its register and local areas, and the stack delta at the pointer. */
  datatype Func = Func(frregs: int, frsize: int, spd: int)

  /** The function's frame: its size, and its members (a slot can be empty). */
  datatype Frame = Frame(size: int, members: seq<Option<RawMember>>)

  /** What `FrameInfo` stores per member: name, offset, size, and the frame offset. */
  datatype Member = Member(name: string, soff: int, size: int, frameOffs: int)

  /** `FrameInfo`: members keyed by address, in insertion order, the frame size, the frame's address. */
  datatype FrameInfo = FrameInfo(members: seq<(int, Member)>, framesize: int, ea: int)

  predicate UniqueKeys(ms: seq<(int, Member)>)
  {
    forall i, j | 0 <= i < j < |ms| :: ms[i].0 != ms[j].0
  }

  predicate HasKey(ms: seq<(int, Member)>, k: int)
  {
    exists i | 0 <= i < |ms| :: ms[i].0 == k
  }

  /**
   * `members[k] = v`: an existing key keeps its place and takes the new
   * value; a new key goes last.
   */
  function Put(ms: seq<(int, Member)>, k: int, v: Member): (r: seq<(int, Member)>)
    requires UniqueKeys(ms)
    ensures UniqueKeys(r)
    ensures (k, v) in r
    ensures forall e | e in ms && e.0 != k :: e in r
    ensures forall e | e in r :: e == (k, v) || e in ms
  {
    if ms == [] then [(k, v)]
    else if ms[0].0 == k then
      assert forall i | 1 <= i < |ms| :: ms[i].0 != k;
      var r := [(k, v)] + ms[1..];
      assert forall e | e in ms && e.0 != k :: e in ms[1..];
      r
    else
      var rest := Put(ms[1..], k, v);
      assert forall i | 1 <= i < |ms| :: ms[i] in ms[1..];
      assert forall i | 0 <= i < |rest| :: rest[i] in rest;
      var r := [ms[0]] + rest;
      assert forall i | 1 <= i < |r| :: r[i] == rest[i - 1];
      r
  }

  /** The entry `_get_frame` stores for a raw member of the frame at `ea`. */
  function Entry(ea: int, m: RawMember, frameOffs: int): (int, Member)
  {
    (ea + m.soff, Member(m.name, m.soff, m.eoff - m.soff, frameOffs))
  }

  /** The member loop of `_get_frame`: each present member keyed by `ea + soff`, sized `eoff - soff`. */
  function AddMembers(acc: seq<(int, Member)>, raw: seq<Option<RawMember>>, ea: int, frameOffs: int): (r: seq<(int, Member)>)
    requires UniqueKeys(acc)
    ensures UniqueKeys(r)
    decreases |raw|
  {
    if raw == [] then acc
    else AddMembers(Step(acc, raw[0], ea, frameOffs), raw[1..], ea, frameOffs)
  }

  function Step(acc: seq<(int, Member)>, m: Option<RawMember>, ea: int, frameOffs: int): (r: seq<(int, Member)>)
    requires UniqueKeys(acc)
    ensures UniqueKeys(r)
  {
    match m
    case None => acc
    case Some(m) => Put(acc, ea + m.soff, Entry(ea, m, frameOffs).1)
  }

  /**
   * `_get_frame`: with both pointers set (and non-zero), a function around
   * the instruction pointer and its frame, the frame's address is
   * `sp - spd - (frregs + frsize)` and the members are collected; otherwise
   * the frame stays empty at address 0.
   */
  function GetFrame(sp: Option<int>, ip: Option<int>, func: Option<Func>, frame: Option<Frame>): (fi: FrameInfo)
    ensures UniqueKeys(fi.members)
    ensures !(Truthy(ip) && Truthy(sp) && func.Some? && frame.Some?) ==> fi == FrameInfo([], 0, 0)
    ensures Truthy(ip) && Truthy(sp) && func.Some? && frame.Some? ==>
              fi.framesize == frame.value.size
              && fi.ea == sp.value - func.value.spd - (func.value.frregs + func.value.frsize)
  {
    if Truthy(ip) && Truthy(sp) && func.Some? && frame.Some? then
      var f := func.value;
      var frameOffs := f.frregs + f.frsize;
      var ea := sp.value - f.spd - frameOffs;
      FrameInfo(AddMembers([], frame.value.members, ea, frameOffs), frame.value.size, ea)
    else FrameInfo([], 0, 0)
  }

  /** Entry `e` is what `_get_frame` stores for one of the present raw members. */
  ghost predicate FromRaw(e: (int, Member), raw: seq<Option<RawMember>>, ea: int, frameOffs: int)
  {
    exists m | Some(m) in raw :: e == Entry(ea, m, frameOffs)
  }

  /**
   * The members of a frame are exactly its present raw members, each at
   * the frame's address plus its start offset, with size `eoff - soff`
   * (a later member at the same address replaces an earlier one).
   */
  lemma MembersKeyed(acc: seq<(int, Member)>, raw: seq<Option<RawMember>>, ea: int, frameOffs: int)
    requires UniqueKeys(acc)
    ensures var r := AddMembers(acc, raw, ea, frameOffs);
            && (forall m | Some(m) in raw :: HasKey(r, ea + m.soff))
            && (forall e | e in r :: e in acc || FromRaw(e, raw, ea, frameOffs))
  {
    MembersPresent(acc, raw, ea, frameOffs);
    MembersFrom(acc, raw, ea, frameOffs);
  }

  /** Every present raw member ends up stored under its address. */
  lemma {:induction false} MembersPresent(acc: seq<(int, Member)>, raw: seq<Option<RawMember>>, ea: int, frameOffs: int)
    requires UniqueKeys(acc)
    ensures forall m | Some(m) in raw :: HasKey(AddMembers(acc, raw, ea, frameOffs), ea + m.soff)
    decreases |raw|
  {
    if raw != [] {
      var acc' := Step(acc, raw[0], ea, frameOffs);
      MembersPresent(acc', raw[1..], ea, frameOffs);
      KeysKept(acc', raw[1..], ea, frameOffs);
      var r := AddMembers(acc, raw, ea, frameOffs);
      assert r == AddMembers(acc', raw[1..], ea, frameOffs);
      if raw[0].Some? {
        var m := raw[0].value;
        assert Entry(ea, m, frameOffs) in acc';
        var i :| 0 <= i < |acc'| && acc'[i] == Entry(ea, m, frameOffs);
        assert HasKey(acc', ea + m.soff);
      }
      forall m | Some(m) in raw
        ensures HasKey(r, ea + m.soff)
      {
        if Some(m) != raw[0] {
          assert Some(m) in raw[1..];
        }
      }
    }
  }

  /** Every stored entry was there before or comes from a present raw member. */
  lemma {:induction false} MembersFrom(acc: seq<(int, Member)>, raw: seq<Option<RawMember>>, ea: int, frameOffs: int)
    requires UniqueKeys(acc)
    ensures forall e | e in AddMembers(acc, raw, ea, frameOffs) :: e in acc || FromRaw(e, raw, ea, frameOffs)
    decreases |raw|
  {
    if raw != [] {
      var acc' := Step(acc, raw[0], ea, frameOffs);
      MembersFrom(acc', raw[1..], ea, frameOffs);
      var r := AddMembers(acc, raw, ea, frameOffs);
      assert r == AddMembers(acc', raw[1..], ea, frameOffs);
      forall e | e in r
        ensures e in acc || FromRaw(e, raw, ea, frameOffs)
      {
        if e in acc' {
          if raw[0].Some? && e !in acc {
            assert e == Entry(ea, raw[0].value, frameOffs);
            assert Some(raw[0].value) in raw;
          }
        } else {
          var m :| Some(m) in raw[1..] && e == Entry(ea, m, frameOffs);
          assert Some(m) in raw;
        }
      }
    }
  }

  /** Later members never remove a key. */
  lemma {:induction false} KeysKept(acc: seq<(int, Member)>, raw: seq<Option<RawMember>>, ea: int, frameOffs: int)
    requires UniqueKeys(acc)
    ensures forall k | HasKey(acc, k) :: HasKey(AddMembers(acc, raw, ea, frameOffs), k)
    decreases |raw|
  {
    if raw != [] {
      var acc' := Step(acc, raw[0], ea, frameOffs);
      forall k | HasKey(acc, k)
        ensures HasKey(acc', k)
      {
        var i :| 0 <= i < |acc| && acc[i].0 == k;
        if raw[0].Some? {
          var m := raw[0].value;
          var e := if k == ea + m.soff then Entry(ea, m, frameOffs) else acc[i];
          assert e in acc';
          var i' :| 0 <= i' < |acc'| && acc'[i'] == e;
        }
      }
      KeysKept(acc', raw[1..], ea, frameOffs);
    }
  }

  /** Every member is stored under the frame's address plus its offset, as `_get_frame` keys it. */
  predicate WellKeyed(fi: FrameInfo)
  {
    && UniqueKeys(fi.members)
    && forall e | e in fi.members :: e.0 == fi.ea + e.1.soff
  }

  /** `_get_frame` keys every member by its address. */
  lemma FrameWellKeyed(sp: Option<int>, ip: Option<int>, func: Option<Func>, frame: Option<Frame>)
    ensures WellKeyed(GetFrame(sp, ip, func, frame))
  {
    var fi := GetFrame(sp, ip, func, frame);
    if Truthy(ip) && Truthy(sp) && func.Some? && frame.Some? {
      var raw, frameOffs := frame.value.members, func.value.frregs + func.value.frsize;
      assert fi.members == AddMembers([], raw, fi.ea, frameOffs);
      MembersKeyed([], raw, fi.ea, frameOffs);
      forall e | e in fi.members
        ensures e.0 == fi.ea + e.1.soff
      {
        var m :| Some(m) in raw && e == Entry(fi.ea, m, frameOffs);
      }
    }
  }

  /** Member `(k, m)` spans the addresses `k .. k + size - 1`. */
  predicate Spans(e: (int, Member), addr: int)
  {
    e.0 <= addr < e.0 + e.1.size
  }

  /** The position of the first member, in iteration order, that spans `addr`. */
  function FirstSpan(ms: seq<(int, Member)>, addr: int): (r: Option<nat>)
    ensures r.None? <==> forall i | 0 <= i < |ms| :: !Spans(ms[i], addr)
    ensures r.Some? ==> r.value < |ms| && Spans(ms[r.value], addr)
    ensures r.Some? ==> forall i | 0 <= i < r.value :: !Spans(ms[i], addr)
  {
    if ms == [] then None
    else if Spans(ms[0], addr) then Some(0)
    else
      var r := FirstSpan(ms[1..], addr);
      assert forall i | 1 <= i < |ms| :: ms[i] == ms[1..][i - 1];
      if r.None? then None else Some(r.value + 1)
  }

  /**
   * `get_element_boundaries`: the span `(ea, ea + size)` of the first member,
   * in iteration order, that contains `addr`; `None` when none does.
   */
  function GetElementBoundaries(ms: seq<(int, Member)>, addr: int): (r: Option<(int, int)>)
    ensures r.None? <==> forall i | 0 <= i < |ms| :: !Spans(ms[i], addr)
    ensures r.Some? ==> r.value.0 <= addr < r.value.1 && HasKey(ms, r.value.0)
    ensures r.Some? ==> exists i | 0 <= i < |ms| :: ms[i].0 == r.value.0 && r.value.1 == ms[i].0 + ms[i].1.size
  {
    match FirstSpan(ms, addr)
    case None => None
    case Some(i) => Some((ms[i].0, ms[i].0 + ms[i].1.size))
  }

  /**
   * With members that do not overlap, the answer does not depend on the
   * iteration order: it is the span of the one member around `addr`.
   */
  lemma BoundariesOfDisjoint(ms: seq<(int, Member)>, addr: int, i: nat)
    requires forall p, q | 0 <= p < q < |ms| :: ms[p].0 + ms[p].1.size <= ms[q].0 || ms[q].0 + ms[q].1.size <= ms[p].0
    requires i < |ms| && Spans(ms[i], addr)
    ensures GetElementBoundaries(ms, addr) == Some((ms[i].0, ms[i].0 + ms[i].1.size))
  {
    var i' := FirstSpan(ms, addr).value;
    if i' != i {
      assert false;
    }
  }

  /** The member stored under key `k`, as `fi.members[start]` reads it. */
  function Lookup(ms: seq<(int, Member)>, k: int): (m: Option<Member>)
    ensures m.Some? <==> HasKey(ms, k)
    ensures m.Some? ==> (k, m.value) in ms
  {
    if ms == [] then None
    else if ms[0].0 == k then Some(ms[0].1)
    else
      var m := Lookup(ms[1..], k);
      assert forall i | 1 <= i < |ms| :: ms[i] == ms[1..][i - 1];
      assert HasKey(ms[1..], k) ==> HasKey(ms, k);
      assert HasKey(ms, k) ==> HasKey(ms[1..], k) by {
        if HasKey(ms, k) {
          var i :| 0 <= i < |ms| && ms[i].0 == k;
          assert ms[1..][i - 1].0 == k;
        }
      }
      m
  }

  // ---------------------------------------------------------------------
  // Filter state

  /** The eleven palettes of five colours each; the third and the tenth are listed reversed in the source. */
  const Palettes: seq<seq<int>> := [
    [0x050f42, 0x084c61, 0x0d94a3, 0xd34410, 0xff6e00],
    [0x17313b, 0x414f47, 0x866d5c, 0xd5aaaa, 0xfff3e3],
    [0x010e1f, 0x005b95, 0x8faebe, 0xa6aaa5, 0xc8bd00],
    [0x100e15, 0x323e53, 0x408fb4, 0xbddfef, 0x64566e],
    [0x0d0e12, 0x073245, 0x4886af, 0x83c1e8, 0xfcd5ce],
    [0x010000, 0xa74c00, 0xffa100, 0xffd300, 0xf1f2f1],
    [0x421930, 0x7c1e3b, 0xb44346, 0xd88e6c, 0xf6e7ce],
    [0x002338, 0x009dd2, 0xffd898, 0xffca03, 0xa83a01],
    [0x050831, 0x133072, 0xd5e6f7, 0xd5adfb, 0xf90052],
    [0x001b00, 0x006332, 0x009f00, 0x019c7c, 0x007f9f],
    [0x00070a, 0x294552, 0x597884, 0xacc4ce, 0x9eb9b3]]

  /** Python's `palettes[i]` for `-11 <= i < 11`: a negative index counts from the end. */
  function PaletteAt(i: int): (p: seq<int>)
    requires -|Palettes| <= i < |Palettes|
    ensures |p| == 5
  {
    var k := if i < 0 then i + |Palettes| else i;
    assert |Palettes[k]| == 5;
    Palettes[k]
  }

  /** The flash hook: whether the current item is flashed, whether its timer is registered. */
  datatype SmsHook = SmsHook(highlighted: bool, timer: bool)

  datatype State = State(curPalette: int, palette: seq<int>, spArrow: bool, hook: Option<SmsHook>)

  /** The palette shown is the selected one, and the selection is a valid index. */
  predicate Valid(s: State)
  {
    -1 <= s.curPalette < |Palettes| && s.palette == PaletteAt(s.curPalette)
  }

  /** `__init__`: the last palette, via index -1; the stack pointer arrow on; no hook. */
  function Initial(): (s: State)
    ensures Valid(s) && s.palette == Palettes[|Palettes| - 1]
  {
    State(-1, PaletteAt(-1), true, None)
  }

  datatype Button = LeftButton | MiddleButton | RightButton | OtherButton

  /**
   * `on_mb_click`: the middle button selects the next palette, wrapping
   * around; the right button toggles the stack pointer arrow.
   */
  function OnMbClick(s: State, button: Button): (r: State)
    requires Valid(s)
    ensures Valid(r) && r.hook == s.hook
    ensures button == MiddleButton ==> 0 <= r.curPalette < |Palettes| && r.curPalette == (s.curPalette + 1) % |Palettes|
    ensures button == MiddleButton ==> r.spArrow == s.spArrow
    ensures button == RightButton ==> r.spArrow == !s.spArrow && r.curPalette == s.curPalette
    ensures button != MiddleButton && button != RightButton ==> r == s
  {
    match button
    case MiddleButton =>
      var cur := (s.curPalette + 1) % |Palettes|;
      s.(curPalette := cur, palette := PaletteAt(cur))
    case RightButton => s.(spArrow := !s.spArrow, palette := PaletteAt(s.curPalette))
    case _ => s
  }

  /** `n` middle clicks. */
  function MiddleClicks(s: State, n: nat): (r: State)
    requires Valid(s)
    ensures Valid(r)
  {
    if n == 0 then s else OnMbClick(MiddleClicks(s, n - 1), MiddleButton)
  }

  /** After `n` middle clicks the selection has moved on `n` places, wrapping around. */
  lemma {:induction false} ClicksAdvance(s: State, n: nat)
    requires Valid(s) && n >= 1
    ensures MiddleClicks(s, n).curPalette == (s.curPalette + n) % |Palettes|
  {
    var p := MiddleClicks(s, n - 1);
    assert MiddleClicks(s, n) == OnMbClick(p, MiddleButton);
    if n > 1 {
      ClicksAdvance(s, n - 1);
      ModSucc(s.curPalette + n - 1, |Palettes|);
    }
  }

  lemma ModSucc(x: int, m: int)
    requires m > 0
    ensures (x % m + 1) % m == (x + 1) % m
  {
    var q, r := x / m, x % m;
    assert x == q * m + r;
    if r == m - 1 {
      assert x + 1 == (q + 1) * m + 0;
      DivModUnique(x + 1, m, q + 1, 0);
      DivModUnique(r + 1, m, 1, 0);
    } else {
      DivModUnique(x + 1, m, q, r + 1);
      DivModUnique(r + 1, m, 0, r + 1);
    }
  }

  lemma ModCycles(x: int, k: nat)
    ensures (x + 11 * k) % 11 == x % 11
  {
    var q, r := x / 11, x % 11;
    assert x + 11 * k == 11 * (q + k) + r;
  }

  /**
   * Every palette comes round again after each eleven middle clicks, also
   * the first one, which index -1 and index 10 both select.
   */
  lemma PalettesCycle(s: State, k: nat)
    requires Valid(s) && k >= 1
    ensures MiddleClicks(s, k * |Palettes|).palette == s.palette
  {
    var n := k * |Palettes|;
    ClicksAdvance(s, n);
    CycleIndex(s.curPalette, k);
    SamePalette(MiddleClicks(s, n), s);
  }

  /** Eleven places on from index `x` is `x` again, or 10 for the -1 that also selects the last palette. */
  lemma CycleIndex(x: int, k: nat)
    requires -1 <= x < |Palettes|
    ensures (x + k * |Palettes|) % |Palettes| == if x == -1 then 10 else x
  {
    assert |Palettes| == 11;
    ModCycles(x, k);
    assert x + k * 11 == x + 11 * k;
  }

  /** Two valid states at the same place of the palette list, -1 counting as 10, show the same palette. */
  lemma SamePalette(r: State, s: State)
    requires Valid(r) && Valid(s)
    requires r.curPalette == if s.curPalette == -1 then 10 else s.curPalette
    ensures r.palette == s.palette
  {
  }

  /** `on_activate`: a fresh hook, flashing, with its timer registered. */
  function OnActivate(s: State): (r: State)
    ensures r.hook == Some(SmsHook(true, true)) && r.(hook := s.hook) == s
  {
    s.(hook := Some(SmsHook(true, true)))
  }

  /** `on_deactivate`: the hook's timer is dropped and the hook forgotten; a second call finds no hook. */
  function OnDeactivate(s: State): (r: State)
    ensures r.hook == None && r.(hook := s.hook) == s
  {
    if s.hook.Some? then s.(hook := None) else s
  }

  /**
   * `_flash_cb`: with a view attached, a debugger on and the process
   * suspended (state -1), the flash flag flips; it always asks for 300 ms.
   */
  function FlashCb(h: SmsHook, attached: bool, debuggerOn: bool, processState: int): (r: (SmsHook, int))
    ensures r.1 == 300 && r.0.timer == h.timer
    ensures r.0.highlighted != h.highlighted <==> attached && debuggerOn && processState == -1
  {
    if attached && debuggerOn && processState == -1 then (h.(highlighted := !h.highlighted), 300) else (h, 300)
  }

  // ---------------------------------------------------------------------
  // Side panel

  /** The line naming the frame member the stack pointer points into, if any. */
  function SpLines(color: Option<Color>, fi: FrameInfo, sp: int): (ann: seq<Annotation>)
    ensures |ann| == (if GetElementBoundaries(fi.members, sp).Some? && fi.members != [] then 1 else 0)
    ensures forall i | 0 <= i < |ann| :: ann[i].target == None && ann[i].text.format == " points to: %s"
  {
    match GetElementBoundaries(fi.members, sp)
    case Some(b) =>
      if fi.members != [] then [Line(" points to: %s", [Str(Lookup(fi.members, b.0).value.name)], color)]
      else []
    case None => []
  }

  /**
   * With unique keys, the member stored at the start of the span found
   * around `addr` is the one that spans it.
   */
  lemma CursorInside(ms: seq<(int, Member)>, addr: int)
    requires UniqueKeys(ms) && FirstSpan(ms, addr).Some?
    ensures var i := FirstSpan(ms, addr).value;
            Lookup(ms, ms[i].0) == Some(ms[i].1)
  {
    var i := FirstSpan(ms, addr).value;
    var m := Lookup(ms, ms[i].0).value;
    var j :| 0 <= j < |ms| && ms[j] == (ms[i].0, m);
    assert i == j;
  }

  /**
   * The lines about the frame member under the cursor at `address + mouseOffs`,
   * when there is one: eight lines, among them its offset from the frame's
   * member area (`distance`) and the cursor's offset inside it.
   */
  function MemberLines(title: Option<Color>, color: Option<Color>, fi: FrameInfo, address: int, mouseOffs: int): (ann: seq<Annotation>)
    ensures |ann| == (if GetElementBoundaries(fi.members, address + mouseOffs).Some? then 8 else 0)
    ensures forall i | 0 <= i < |ann| :: ann[i].target == None
  {
    match GetElementBoundaries(fi.members, address + mouseOffs)
    case None => []
    case Some(b) =>
      var m := Lookup(fi.members, b.0).value;
      var dist := m.frameOffs - m.soff;
      [Line("", [], None),
       Line("[Frame Member]", [], title),
       Line(" name: %s", [Str(m.name)], color),
       Line(" addr: 0x%x", [Num(fi.ea + m.soff)], color),
       Line(" offs: Frame+0x%x", [Num(m.soff)], color),
       Line(" size: 0x%x", [Num(m.size)], color),
       Line(" distance: %s0x%x", [Str(if dist < 0 then "-" else ""), Num(if dist < 0 then -dist else dist)], color),
       Line(" cursor: %s+0x%x", [Str(m.name), Num(address + mouseOffs - (fi.ea + m.soff))], color)]
  }

  /**
   * In a frame keyed as `_get_frame` keys it, the member block names the
   * member that spans the cursor, and the cursor offset it shows lies
   * inside that member.
   */
  lemma MemberCursor(title: Option<Color>, color: Option<Color>, fi: FrameInfo, address: int, mouseOffs: int)
    requires WellKeyed(fi)
    requires GetElementBoundaries(fi.members, address + mouseOffs).Some?
    ensures var ann := MemberLines(title, color, fi, address, mouseOffs);
            var b := GetElementBoundaries(fi.members, address + mouseOffs).value;
            var m := Lookup(fi.members, b.0).value;
            && ann[2].text.args == [Str(m.name)]
            && ann[7].text.args == [Str(m.name), Num(address + mouseOffs - b.0)]
            && 0 <= address + mouseOffs - b.0 < m.size
  {
    var b := GetElementBoundaries(fi.members, address + mouseOffs).value;
    CursorMember(fi.members, address + mouseOffs);
    KeyedLookup(fi, b.0);
    MemberLinesArgs(title, color, fi, address, mouseOffs);
  }

  /** In a well-keyed frame, a member found under key `k` is the member at `k - ea`. */
  lemma KeyedLookup(fi: FrameInfo, k: int)
    requires WellKeyed(fi) && Lookup(fi.members, k).Some?
    ensures k == fi.ea + Lookup(fi.members, k).value.soff
  {
    var m := Lookup(fi.members, k).value;
    assert (k, m) in fi.members;
  }

  /** The name line and the cursor line of the member block. */
  lemma MemberLinesArgs(title: Option<Color>, color: Option<Color>, fi: FrameInfo, address: int, mouseOffs: int)
    requires GetElementBoundaries(fi.members, address + mouseOffs).Some?
    requires var b := GetElementBoundaries(fi.members, address + mouseOffs).value;
             Lookup(fi.members, b.0).Some? && b.0 == fi.ea + Lookup(fi.members, b.0).value.soff
    ensures var ann := MemberLines(title, color, fi, address, mouseOffs);
            var b := GetElementBoundaries(fi.members, address + mouseOffs).value;
            var m := Lookup(fi.members, b.0).value;
            && ann[2].text.args == [Str(m.name)]
            && ann[7].text.args == [Str(m.name), Num(address + mouseOffs - b.0)]
  {
  }

  /** With unique keys, the member looked up at the start of the span around `addr` covers `addr`. */
  lemma CursorMember(ms: seq<(int, Member)>, addr: int)
    requires UniqueKeys(ms) && GetElementBoundaries(ms, addr).Some?
    ensures var b := GetElementBoundaries(ms, addr).value;
            0 <= addr - b.0 < Lookup(ms, b.0).value.size
  {
    var i := FirstSpan(ms, addr).value;
    CursorInside(ms, addr);
    assert Spans(ms[i], addr);
  }

  /**
   * `on_get_annotations`: without both pointers (0 counts as missing) only
   * "Debugger inactive".  Otherwise the stack pointer block (its arrow
   * only when enabled, the member it points into if any), the function
   * block, and, with a non-zero cursor offset on a frame member, that
   * member's block.
   */
  function OnGetAnnotations(s: State, sp: Option<int>, ip: Option<int>, fi: FrameInfo, funcName: string,
                            address: int, mouseOffs: Option<int>): (ann: seq<Annotation>)
    requires |s.palette| == 5
    ensures !(Truthy(sp) && Truthy(ip)) ==> ann == [Line("Debugger inactive", [], Some(Hex(s.palette[4])))]
    ensures Truthy(sp) && Truthy(ip) ==>
              var spIn := GetElementBoundaries(fi.members, sp.value).Some? && fi.members != [];
              var mouseIn := Truthy(mouseOffs) && fi.members != []
                             && GetElementBoundaries(fi.members, address + mouseOffs.value).Some?;
              && |ann| == 7 + (if spIn then 1 else 0) + (if mouseIn then 8 else 0)
              && ann[1].target == (if s.spArrow then sp else None) && ann[1].arrow == Some(Hex(s.palette[4]))
              && ann[2].text.args == [Num(sp.value)]
              && (forall i | 0 <= i < |ann| && i != 1 :: ann[i].target == None)
  {
    var title, color, mark := Some(Hex(s.palette[1])), Some(Hex(s.palette[3])), Some(Hex(s.palette[4]));
    if Truthy(sp) && Truthy(ip) then
      var arrow := if s.spArrow then sp else None;
      var head := [Line("", [], None),
                   Annotation(arrow, mark, Text("[Stack Pointer]", []), title),
                   Line(" address: 0x%x", [Num(sp.value)], color)];
      var func := [Line("", [], None),
                   Line("[Function]", [], title),
                   Line(" name: %s", [Str(funcName)], color),
                   Line(" frame addr: 0x%x", [Num(fi.ea)], color)];
      var member := if Truthy(mouseOffs) && fi.members != [] then MemberLines(title, color, fi, address, mouseOffs.value) else [];
      var spLines := SpLines(color, fi, sp.value);
      assert |member| == (if Truthy(mouseOffs) && fi.members != []
                             && GetElementBoundaries(fi.members, address + mouseOffs.value).Some? then 8 else 0);
      assert |head| == 3 && |func| == 4;
      head + spLines + func + member
    else [Line("Debugger inactive", [], mark)]
  }
}
