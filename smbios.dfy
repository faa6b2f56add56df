/**
 * The SMBIOS part of sysinfo: the helpers that turn values already read
 * from the SMBIOS tables into entries of the sysinfo name/value list.
 *
 * The list is created with NV_UNIQUE_NAME, so it is a map from names to
 * values here; adding a name replaces whatever value it had. The SMBIOS
 * strings are C strings, and each `string` parameter below holds the
 * characters before the terminating NUL. Each `char` stands for one byte
 * (0 to 255) of the C text, so TypeSize and the other sizes count bytes.
 */
module Smbios {

  import opened Options
  import opened Strings

  type uint16 = x: int | 0 <= x < 0x1_0000

  /** The two kinds of value the SMBIOS helpers add to the list. */
  datatype NvValue = Str(s: string) | Int32(n: int)

  type NvList = map<string, NvValue>

  // ===========================================================================
  // do_system_common

  /** The strings of an `smbios_info_t` that sysinfo reports. */
  datatype Info = Info(
    manufacturer: string,
    product: string,
    version: string,
    serial: string,
    asset: string,
    location: string,
    part: string)

  /** The name under which each field of a system's `Info` is added, in the order they are added. */
  function SystemFields(info: Info): seq<(string, string)>
  {
    [ ("Manufacturer", info.manufacturer),
      ("Product", info.product),
      ("HW Version", info.version),
      ("Serial Number", info.serial),
      ("Asset Tag", info.asset),
      ("Location Tag", info.location),
      ("Part Number", info.part) ]
  }

  /** No name appears twice in `fields`. */
  predicate DistinctNames(fields: seq<(string, string)>)
  {
    forall i, j :: 0 <= i < j < |fields| ==> fields[i].0 != fields[j].0
  }

  /** Adds, in order, each field whose string is non-empty. */
  function AddFields(nvl: NvList, fields: seq<(string, string)>): NvList
    decreases |fields|
  {
    if fields == [] then nvl
    else
      var (name, value) := fields[0];
      AddFields(if value != [] then nvl[name := Str(value)] else nvl, fields[1..])
  }

  /** What do_system_common leaves in `nvl`. */
  function SystemCommon(info: Info, nvl: NvList): NvList
  {
    AddFields(nvl, SystemFields(info))
  }

  /** A name that no field carries keeps its entry, or its absence. */
  lemma {:induction false} AddFieldsOther(nvl: NvList, fields: seq<(string, string)>, key: string)
    requires forall i :: 0 <= i < |fields| ==> fields[i].0 != key
    ensures var r := AddFields(nvl, fields);
      (key in r <==> key in nvl) && (key in nvl ==> r[key] == nvl[key])
    decreases |fields|
  {
    if fields != [] {
      var (name, value) := fields[0];
      var next := if value != [] then nvl[name := Str(value)] else nvl;
      AddFieldsOther(next, fields[1..], key);
    }
  }

  /**
   * With distinct names, field `i` is present with its string exactly when
   * that string is non-empty; an empty one leaves the old entry alone.
   */
  lemma {:induction false} AddFieldsAt(nvl: NvList, fields: seq<(string, string)>, i: nat)
    requires DistinctNames(fields)
    requires i < |fields|
    ensures var r := AddFields(nvl, fields);
      var (name, value) := fields[i];
      (value != [] ==> name in r && r[name] == Str(value)) &&
      (value == [] ==> (name in r <==> name in nvl) && (name in nvl ==> r[name] == nvl[name]))
    decreases |fields|
  {
    var (name, value) := fields[0];
    var next := if value != [] then nvl[name := Str(value)] else nvl;
    if i == 0 {
      AddFieldsOther(next, fields[1..], name);
    } else {
      assert DistinctNames(fields[1..]) by {
        forall a, b | 0 <= a < b < |fields| - 1 ensures fields[1..][a].0 != fields[1..][b].0 {
          assert fields[1..][a] == fields[a + 1] && fields[1..][b] == fields[b + 1];
        }
      }
      assert fields[1..][i - 1] == fields[i];
      AddFieldsAt(next, fields[1..], i - 1);
    }
  }

  /**
   * do_system_common: each of the seven fields is added under its name iff
   * its string is non-empty, and any other name keeps what it had.
   */
  lemma SystemCommonEntries(info: Info, nvl: NvList)
    ensures var r := SystemCommon(info, nvl);
      var fields := SystemFields(info);
      (forall i :: 0 <= i < |fields| && fields[i].1 != [] ==> fields[i].0 in r && r[fields[i].0] == Str(fields[i].1)) &&
      (forall i :: 0 <= i < |fields| && fields[i].1 == [] ==>
        (fields[i].0 in r <==> fields[i].0 in nvl) && (fields[i].0 in nvl ==> r[fields[i].0] == nvl[fields[i].0]))
  {
    var fields := SystemFields(info);
    forall i | 0 <= i < |fields| ensures
      var r := SystemCommon(info, nvl);
      (fields[i].1 != [] ==> fields[i].0 in r && r[fields[i].0] == Str(fields[i].1)) &&
      (fields[i].1 == [] ==> (fields[i].0 in r <==> fields[i].0 in nvl) && (fields[i].0 in nvl ==> r[fields[i].0] == nvl[fields[i].0]))
    {
      AddFieldsAt(nvl, fields, i);
    }
  }

  /** do_system_common adds no name other than its seven. */
  lemma SystemCommonOthers(info: Info, nvl: NvList, key: string)
    requires key !in {"Manufacturer", "Product", "HW Version", "Serial Number", "Asset Tag", "Location Tag", "Part Number"}
    ensures var r := SystemCommon(info, nvl);
      (key in r <==> key in nvl) && (key in nvl ==> r[key] == nvl[key])
  {
    AddFieldsOther(nvl, SystemFields(info), key);
  }

  // ===========================================================================
  // do_system

  /** Size of the C buffer `uuid`. */
  const UuidSize := 256

  /**
   * The longest UUID whose text, with its NUL, fits in `uuid`: 125 bytes
   * take 2 * 125 + 4 + 1 = 255 characters.
   */
  const MaxUuidLen := 125

  /** A '-' follows the byte at index `i`. */
  predicate DashAfter(i: int)
  {
    i == 3 || i == 5 || i == 7 || i == 9
  }

  /** The number of the indices 3, 5, 7 and 9 that are below `n`. */
  function DashCount(n: nat): nat
  {
    (if 3 < n then 1 else 0) + (if 5 < n then 1 else 0) + (if 7 < n then 1 else 0) + (if 9 < n then 1 else 0)
  }

  /** Two lowercase hex digits per byte, with no separator. */
  function HexString(b: seq<uint8>): string
  {
    if b == [] then [] else HexString(b[..|b| - 1]) + Hex2(b[|b| - 1])
  }

  /** The text do_system builds from the UUID bytes. */
  function UuidText(b: seq<uint8>): string
  {
    if b == [] then []
    else UuidText(b[..|b| - 1]) + Hex2(b[|b| - 1]) + (if DashAfter(|b| - 1) then "-" else "")
  }

  /** One more byte extends the text by its two digits and, after bytes 3, 5, 7 and 9, a dash. */
  lemma UuidTextSnoc(b: seq<uint8>, i: nat)
    requires i < |b|
    ensures UuidText(b[..i + 1]) == UuidText(b[..i]) + Hex2(b[i]) + (if DashAfter(i) then "-" else "")
  {
    assert b[..i + 1][..i] == b[..i];
  }

  /** The text holds two characters per byte plus one per dash. */
  lemma {:induction false} UuidLength(b: seq<uint8>)
    ensures |UuidText(b)| == 2 * |b| + DashCount(|b|)
  {
    if b != [] {
      UuidLength(b[..|b| - 1]);
    }
  }

  /** Every character of the text is a lowercase hex digit or a dash. */
  lemma {:induction false} UuidChars(b: seq<uint8>)
    ensures forall k :: 0 <= k < |UuidText(b)| ==> IsLowerHexDigit(UuidText(b)[k]) || UuidText(b)[k] == '-'
  {
    if b != [] {
      var init := b[..|b| - 1];
      UuidChars(init);
      var h := Hex2(b[|b| - 1]);
      var tail := h + (if DashAfter(|b| - 1) then "-" else "");
      assert UuidText(b) == UuidText(init) + tail;
      forall k | 0 <= k < |UuidText(b)| ensures IsLowerHexDigit(UuidText(b)[k]) || UuidText(b)[k] == '-' {
        if k >= |UuidText(init)| {
          assert UuidText(b)[k] == tail[k - |UuidText(init)|];
        } else {
          assert UuidText(b)[k] == UuidText(init)[k];
        }
      }
    }
  }

  /** The text of a prefix of the bytes is a prefix of the text. */
  lemma {:induction false} UuidPrefix(b: seq<uint8>, j: nat)
    requires j <= |b|
    ensures UuidText(b[..j]) <= UuidText(b)
    decreases |b| - j
  {
    if j < |b| {
      UuidTextSnoc(b, j);
      UuidPrefix(b, j + 1);
    } else {
      assert b[..j] == b;
    }
  }

  /**
   * Byte `i` sits, as two lowercase hex digits, at position 2i plus the
   * dashes before it, and is followed by a dash iff `i` is 3, 5, 7 or 9.
   */
  lemma UuidAt(b: seq<uint8>, i: nat)
    requires i < |b|
    ensures var p := 2 * i + DashCount(i);
      p + 2 <= |UuidText(b)| && UuidText(b)[p..p + 2] == Hex2(b[i]) &&
      (DashAfter(i) <==> p + 2 < |UuidText(b)| && UuidText(b)[p + 2] == '-')
  {
    UuidDigitsAt(b, i);
    var p := 2 * i + DashCount(i);
    if DashAfter(i) {
      UuidDashAt(b, i);
    } else if i + 1 < |b| {
      // the next byte starts right after this one
      UuidDigitsAt(b, i + 1);
      assert UuidText(b)[p + 2] == UuidText(b)[p + 2..p + 4][0];
    } else {
      UuidLength(b);
    }
  }

  /** The digits of byte `i` in the text. */
  lemma UuidDigitsAt(b: seq<uint8>, i: nat)
    requires i < |b|
    ensures var p := 2 * i + DashCount(i);
      p + 2 <= |UuidText(b)| && UuidText(b)[p..p + 2] == Hex2(b[i])
  {
    var p := 2 * i + DashCount(i);
    UuidTextSnoc(b, i);
    UuidLength(b[..i]);
    UuidPrefix(b, i + 1);
    var pre := UuidText(b[..i + 1]);
    assert pre[p..p + 2] == Hex2(b[i]);
    assert UuidText(b)[p..p + 2] == pre[p..p + 2];
  }

  /** The dash after byte `i`, when `i` is 3, 5, 7 or 9. */
  lemma UuidDashAt(b: seq<uint8>, i: nat)
    requires i < |b| && DashAfter(i)
    ensures var p := 2 * i + DashCount(i);
      p + 2 < |UuidText(b)| && UuidText(b)[p + 2] == '-'
  {
    var p := 2 * i + DashCount(i);
    UuidTextSnoc(b, i);
    UuidLength(b[..i]);
    UuidPrefix(b, i + 1);
    var pre := UuidText(b[..i + 1]);
    assert pre[p + 2] == '-';
  }

  /** A run of bytes with no dash inside contributes its hex digits and nothing else. */
  lemma {:induction false} UuidRun(b: seq<uint8>, i: nat, j: nat)
    requires i <= j <= |b|
    requires forall x :: i <= x < j ==> !DashAfter(x)
    ensures UuidText(b[..j]) == UuidText(b[..i]) + HexString(b[i..j])
    decreases j - i
  {
    if i < j {
      UuidRun(b, i, j - 1);
      UuidRunStep(b, i, j);
    } else {
      assert b[i..j] == [];
    }
  }

  /** The inductive step of `UuidRun`: one more byte with no dash after it. */
  lemma UuidRunStep(b: seq<uint8>, i: nat, j: nat)
    requires i < j <= |b| && !DashAfter(j - 1)
    requires UuidText(b[..j - 1]) == UuidText(b[..i]) + HexString(b[i..j - 1])
    ensures UuidText(b[..j]) == UuidText(b[..i]) + HexString(b[i..j])
  {
    UuidTextSnoc(b, j - 1);
    HexStringSnoc(b, i, j);
    Assoc(UuidText(b[..i]), HexString(b[i..j - 1]), Hex2(b[j - 1]));
  }

  /** One more byte extends the digits of a slice by its two digits. */
  lemma HexStringSnoc(b: seq<uint8>, i: nat, j: nat)
    requires i < j <= |b|
    ensures HexString(b[i..j]) == HexString(b[i..j - 1]) + Hex2(b[j - 1])
  {
    assert b[i..j][..|b[i..j]| - 1] == b[i..j - 1];
  }

  /** A group of bytes that ends with a dash. */
  lemma UuidGroup(b: seq<uint8>, i: nat, j: nat)
    requires i < j <= |b|
    requires forall x :: i <= x < j - 1 ==> !DashAfter(x)
    requires DashAfter(j - 1)
    ensures UuidText(b[..j]) == UuidText(b[..i]) + HexString(b[i..j]) + "-"
  {
    UuidRun(b, i, j - 1);
    assert UuidText(b[..j]) == UuidText(b[..j - 1]) + Hex2(b[j - 1]) + "-" by {
      UuidTextSnoc(b, j - 1);
    }
    HexStringSnoc(b, i, j);
    Assoc(UuidText(b[..i]), HexString(b[i..j - 1]), Hex2(b[j - 1]));
  }


  /**
   * A 16-byte UUID comes out in the 8-4-4-4-12 layout of section 3 of
   * RFC 4122, the bytes taken in the order the table stores them.
   */
  lemma UuidLayout(b: seq<uint8>)
    requires |b| == 16
    ensures UuidText(b) ==
      HexString(b[0..4]) + "-" + HexString(b[4..6]) + "-" + HexString(b[6..8]) + "-" +
      HexString(b[8..10]) + "-" + HexString(b[10..16])
    ensures |UuidText(b)| == 36
  {
    var t4, t6, t8, t10 := UuidText(b[..4]), UuidText(b[..6]), UuidText(b[..8]), UuidText(b[..10]);
    assert t4 == HexString(b[0..4]) + "-" by {
      UuidGroup(b, 0, 4);
      assert b[..0] == [];
      assert [] + HexString(b[0..4]) == HexString(b[0..4]);
    }
    assert t6 == t4 + HexString(b[4..6]) + "-" by { UuidGroup(b, 4, 6); }
    assert t8 == t6 + HexString(b[6..8]) + "-" by { UuidGroup(b, 6, 8); }
    assert t10 == t8 + HexString(b[8..10]) + "-" by { UuidGroup(b, 8, 10); }
    assert UuidText(b) == t10 + HexString(b[10..16]) by {
      UuidRun(b, 10, 16);
      assert b[..16] == b;
    }
    UuidLength(b);
  }

  /**
   * The loop of do_system: each byte is printed with "%02x" and appended
   * with strncat, then a "-" with strcat after bytes 3, 5, 7 and 9. `n` is
   * the length of the C string held in `uuid`.
   */
  method FormatUuid(bytes: seq<uint8>) returns (s: string)
    requires |bytes| <= MaxUuidLen
    ensures s == UuidText(bytes)
  {
    var uuid := new char[UuidSize];
    uuid[0] := '\0';
    var n := 0;
    var i := 0;
    while i < |bytes|
      invariant 0 <= i <= |bytes|
      invariant n == 2 * i + DashCount(i)
      invariant uuid[..n] == UuidText(bytes[..i])
      invariant uuid[n] == '\0'
    {
      UuidTextSnoc(bytes, i);
      n := WriteString(uuid, n, Hex2(bytes[i]));  // snprintf of "%02x", then strncat
      if DashAfter(i) {
        n := WriteString(uuid, n, "-");
      }
      i := i + 1;
    }
    assert bytes[..i] == bytes;
    assert '\0' !in uuid[..n] by {
      UuidChars(bytes);
    }
    CStrTerminated(uuid[..], n);
    s := ReadCString(uuid);
  }

  /**
   * do_system: "UUID", "SKU Number" and "HW Family" are always added, the
   * last two even when their strings are empty.
   */
  method DoSystem(uuid: seq<uint8>, sku: string, family: string, nvl: NvList) returns (r: NvList)
    requires |uuid| <= MaxUuidLen
    ensures r == nvl["UUID" := Str(UuidText(uuid))]["SKU Number" := Str(sku)]["HW Family" := Str(family)]
  {
    var text := FormatUuid(uuid);
    r := nvl["UUID" := Str(text)];
    r := r["SKU Number" := Str(sku)];
    r := r["HW Family" := Str(family)];
  }

  // ===========================================================================
  // do_processor_common

  /** Size of the C buffer `type`. */
  const TypeSize := 256

  /** What strncpy into `type` followed by `type[255] = '\0'` keeps of a string. */
  function Truncate(v: string): (t: string)
    ensures t <= v && |t| == (if |v| < TypeSize then |v| else TypeSize - 1)
  {
    if |v| < TypeSize then v else v[..TypeSize - 1]
  }

  /**
   * `v` without its trailing spaces, except that the first character
   * always stays.
   */
  function TrimType(v: string): string
  {
    if |v| <= 1 || v[|v| - 1] != ' ' then v else TrimType(v[..|v| - 1])
  }

  /**
   * The trimmed type is `v[..j + 1]` for the `j` after which only spaces
   * follow and which is either 0 or not a space itself; this also says
   * that no other result has these properties.
   */
  lemma {:induction false} TrimTypeAt(v: string, j: nat)
    requires j < |v|
    requires j == 0 || v[j] != ' '
    requires forall k :: j < k < |v| ==> v[k] == ' '
    ensures TrimType(v) == v[..j + 1]
    decreases |v|
  {
    if |v| - 1 == j {
      assert v[..j + 1] == v;
    } else {
      assert v[..|v| - 1][..j + 1] == v[..j + 1];
      TrimTypeAt(v[..|v| - 1], j);
    }
  }

  /**
   * The trimmed type is a non-empty prefix of `v`, only spaces follow it in
   * `v`, and it ends in a space only when it is the single first character.
   */
  lemma {:induction false} TrimTypeShape(v: string)
    requires v != []
    ensures var r := TrimType(v);
      r <= v && |r| >= 1 && (forall k :: |r| <= k < |v| ==> v[k] == ' ') && (|r| > 1 ==> r[|r| - 1] != ' ')
    decreases |v|
  {
    if |v| > 1 && v[|v| - 1] == ' ' {
      TrimTypeShape(v[..|v| - 1]);
    }
  }

  /**
   * The trim of do_processor_common: strncpy of the version into `type`,
   * a NUL in its last cell, then a downward loop that clears NULs and
   * spaces and stops at index 0, which it never clears.
   */
  method CpuType(version: string) returns (ty: Option<string>)
    requires '\0' !in version
    ensures version == [] ==> ty == None
    ensures version != [] ==> ty == Some(TrimType(Truncate(version)))
  {
    if version == [] {
      return None;
    }
    var v := Truncate(version);
    var buf := new char[TypeSize];
    StrNCopy(buf, version);
    var i := TypeSize - 1;
    buf[i] := '\0';
    while (buf[i] == '\0' || buf[i] == ' ') && i > 0
      invariant 0 <= i < TypeSize
      invariant forall j :: 0 <= j <= i ==> buf[j] == (if j < |v| then v[j] else '\0')
      invariant forall j :: i < j < TypeSize ==> buf[j] == '\0'
      invariant forall j :: i < j < |v| ==> v[j] == ' '
    {
      buf[i] := '\0';
      i := i - 1;
    }
    assert i < |v|;
    TrimTypeAt(v, i);
    assert buf[..i + 1] == v[..i + 1];
    CStrTerminated(buf[..], i + 1);
    var s := ReadCString(buf);
    return Some(s);
  }

  /**
   * `strncpy(dst, src, sizeof dst)`: the first characters of `src` that fit,
   * and NULs in the rest of `dst`.
   */
  method StrNCopy(dst: array<char>, src: string)
    modifies dst
    ensures forall j :: 0 <= j < dst.Length ==> dst[j] == (if j < |src| then src[j] else '\0')
  {
    var k := 0;
    while k < dst.Length
      invariant 0 <= k <= dst.Length
      invariant forall j :: 0 <= j < k ==> dst[j] == (if j < |src| then src[j] else '\0')
    {
      dst[k] := if k < |src| then src[k] else '\0';
      k := k + 1;
    }
  }

  /** do_processor_common: "CPU Type" is added iff the version string is non-empty. */
  method DoProcessorCommon(version: string, nvl: NvList) returns (r: NvList)
    requires '\0' !in version
    ensures version == [] ==> r == nvl
    ensures version != [] ==> r == nvl["CPU Type" := Str(TrimType(Truncate(version)))]
  {
    var ty := CpuType(version);
    if ty.Some? {
      r := nvl["CPU Type" := Str(ty.value)];
    } else {
      r := nvl;
    }
  }

  // ===========================================================================
  // do_processor

  /**
   * The core count do_processor reports: nothing for a zero Core Count,
   * Core Count 2 when Core Count is FFh and Core Count 2 is set, Core Count
   * otherwise; a reported count is positive.
   */
  function TotalCores(corecount: uint16, corecount2: uint16): (r: Option<int>)
    ensures r.None? <==> corecount == 0
    ensures r.Some? ==> r.value > 0
    ensures r.Some? && corecount == 0xFF && corecount2 != 0 ==> r.value == corecount2
    ensures r.Some? && (corecount != 0xFF || corecount2 == 0) ==> r.value == corecount
  {
    if corecount == 0 then None
    else if corecount != 0xFF || corecount2 == 0 then Some(corecount)
    else Some(corecount2)
  }

  /**
   * How section 7.5 of DSP0134 stores a known number of cores: Core Count
   * holds it up to 255 and is FFh above, and Core Count 2 always holds it.
   */
  function EncodeCores(cores: uint16): (uint16, uint16)
  {
    (if cores < 256 then cores else 0xFF, cores)
  }

  /**
   * do_processor recovers the number of cores from either encoding of
   * DSP0134: the one with Core Count 2, and the older one with Core Count
   * alone (Core Count 2 zero).
   */
  lemma TotalCoresDecodes(cores: uint16)
    requires cores != 0
    ensures var (c1, c2) := EncodeCores(cores); TotalCores(c1, c2) == Some(cores)
    ensures cores < 256 ==> TotalCores(cores, 0) == Some(cores)
  {
  }

  /** do_processor: "CPU Total Cores" is added, as an int32, iff a count is chosen. */
  function DoProcessor(corecount: uint16, corecount2: uint16, nvl: NvList): (r: NvList)
    ensures corecount == 0 ==> r == nvl
    ensures corecount != 0 ==> r == nvl["CPU Total Cores" := Int32(TotalCores(corecount, corecount2).value)]
  {
    match TotalCores(corecount, corecount2)
    case None => nvl
    case Some(n) => nvl["CPU Total Cores" := Int32(n)]
  }
}
