/**
 Port names of serial over HID cables: a HIDAPI path as a colon-free name and back, and the
 parser of connection specs (serial_hid.c).
 */
module HidPort {
  import opened Wrappers
  import opened ReturnCodes

  const USB_PREFIX := "usb="
  const RAW_PREFIX := "raw="
  const IOKIT_PREFIX := "iokit="
  const SNR_PREFIX := "sn="
  const CONN_PREFIX := "hid"
  const IOKIT_PATH_PREFIX := "IOService:"

  // ----- HIDAPI paths -----

  predicate IsHexDigit(c: char) {
    '0' <= c <= '9' || 'a' <= c <= 'f' || 'A' <= c <= 'F'
  }

  /** Every character that is neither a hex digit nor `keep` becomes `other` (g_strcanon). */
  function Canon(s: string, keep: char, other: char): (r: string)
    ensures |r| == |s|
    ensures forall k :: 0 <= k < |s| ==> r[k] == if IsHexDigit(s[k]) || s[k] == keep then s[k] else other
  {
    if s == [] then [] else [if IsHexDigit(s[0]) || s[0] == keep then s[0] else other] + Canon(s[1..], keep, other)
  }

  predicate IsHexColon(path: string) {
    forall k :: 0 <= k < |path| ==> IsHexDigit(path[k]) || path[k] == ':'
  }

  /** get_hidapi_path_copy: None where the source gives up on the path. */
  function GetHidapiPathCopy(path: string): Option<string> {
    if IsHexColon(path) then
      Some(USB_PREFIX + Canon(path, '.', '.'))
    else if ':' !in path then
      Some(RAW_PREFIX + path)
    else if IOKIT_PATH_PREFIX <= path && ':' !in path[|IOKIT_PATH_PREFIX|..] then
      Some(IOKIT_PREFIX + path[|IOKIT_PATH_PREFIX|..])
    else
      None
  }

  /** extract_hidapi_path: None for a text that no path is named by. */
  function ExtractHidapiPath(copy: string): Option<string> {
    if copy == "" then
      None
    else if IOKIT_PREFIX <= copy then
      Some(IOKIT_PATH_PREFIX + copy[|IOKIT_PREFIX|..])
    else if RAW_PREFIX <= copy then
      Some(copy[|RAW_PREFIX|..])
    else if USB_PREFIX <= copy then
      Some(Canon(copy[|USB_PREFIX|..], ':', ':'))
    else
      None
  }

  lemma CanonUndone(path: string)
    requires IsHexColon(path)
    ensures Canon(Canon(path, '.', '.'), ':', ':') == path
  {
    var c := Canon(path, '.', '.');
    forall k | 0 <= k < |path|
      ensures Canon(c, ':', ':')[k] == path[k]
    {
      assert IsHexDigit(path[k]) || path[k] == ':';
    }
  }

  lemma UsbNameReturns(path: string)
    requires IsHexColon(path)
    ensures ':' !in USB_PREFIX + Canon(path, '.', '.')
    ensures ExtractHidapiPath(USB_PREFIX + Canon(path, '.', '.')) == Some(path)
  {
    var canon := Canon(path, '.', '.');
    var copy := USB_PREFIX + canon;
    assert ':' !in canon;
    assert copy[0] == 'u' && IOKIT_PREFIX[0] == 'i' && RAW_PREFIX[0] == 'r';
    assert copy[|USB_PREFIX|..] == canon;
    CanonUndone(path);
  }

  lemma RawNameReturns(path: string)
    ensures ExtractHidapiPath(RAW_PREFIX + path) == Some(path)
    ensures ':' !in path ==> ':' !in RAW_PREFIX + path
  {
    var copy := RAW_PREFIX + path;
    assert copy[0] == 'r' && IOKIT_PREFIX[0] == 'i';
    assert copy[|RAW_PREFIX|..] == path;
  }

  lemma IokitNameReturns(rest: string)
    ensures ExtractHidapiPath(IOKIT_PREFIX + rest) == Some(IOKIT_PATH_PREFIX + rest)
    ensures ':' !in rest ==> ':' !in IOKIT_PREFIX + rest
  {
    assert (IOKIT_PREFIX + rest)[|IOKIT_PREFIX|..] == rest;
  }

  /** Where a path has a name, the name leads back to it and can stand in a colon-separated list. */
  lemma CopyRoundTrip(path: string)
    ensures var copy := GetHidapiPathCopy(path);
      copy.Some? ==> ':' !in copy.value && ExtractHidapiPath(copy.value) == Some(path)
  {
    if IsHexColon(path) {
      UsbNameReturns(path);
    } else if ':' !in path {
      RawNameReturns(path);
    } else if GetHidapiPathCopy(path).Some? {
      assert path == IOKIT_PATH_PREFIX + path[|IOKIT_PATH_PREFIX|..];
      IokitNameReturns(path[|IOKIT_PATH_PREFIX|..]);
    }
  }

  /** Every path has a name except those that have a colon left when the IOKit literal is dropped. */
  lemma CopyExistsIff(path: string)
    ensures GetHidapiPathCopy(path).Some? <==>
      IsHexColon(path) || ':' !in path || exists rest :: path == IOKIT_PATH_PREFIX + rest && ':' !in rest
  {
    if IOKIT_PATH_PREFIX <= path {
      assert path == IOKIT_PATH_PREFIX + path[|IOKIT_PATH_PREFIX|..];
    }
    forall rest | path == IOKIT_PATH_PREFIX + rest ensures rest == path[|IOKIT_PATH_PREFIX|..] {
    }
  }

  predicate IsDotted(path: string, dotted: string) {
    && |dotted| == |path|
    && forall k :: 0 <= k < |path| ==> dotted[k] == if path[k] == ':' then '.' else path[k]
  }

  lemma IokitCopyText(rest: string)
    ensures ':' !in rest ==> GetHidapiPathCopy("IOService:" + rest) == Some("iokit=" + rest)
  {
    var path := "IOService:" + rest;
    assert path[0] == 'I' && path[9] == ':' && path[|IOKIT_PATH_PREFIX|..] == rest;
  }

  /** The names, spelled out: dots for colons behind "usb=", and otherwise the rest of the path as it is. */
  lemma CopyText(path: string)
    ensures IsHexColon(path) ==>
      exists dotted :: GetHidapiPathCopy(path) == Some("usb=" + dotted) && IsDotted(path, dotted)
    ensures !IsHexColon(path) && ':' !in path ==> GetHidapiPathCopy(path) == Some("raw=" + path)
    ensures ':' !in path ==> GetHidapiPathCopy("IOService:" + path) == Some("iokit=" + path)
  {
    if IsHexColon(path) {
      assert IsDotted(path, Canon(path, '.', '.'));
      assert GetHidapiPathCopy(path) == Some("usb=" + Canon(path, '.', '.'));
    }
    IokitCopyText(path);
  }

  /** Hex digits are these characters. */
  lemma HexDigits(c: char)
    ensures IsHexDigit(c) <==> c in "0123456789abcdefABCDEF"
  {
  }

  predicate IsUndotted(rest: string, path: string) {
    && |path| == |rest|
    && forall k :: 0 <= k < |rest| ==> path[k] == if rest[k] in "0123456789abcdefABCDEF" then rest[k] else ':'
  }

  lemma UndottedIs(rest: string)
    ensures IsUndotted(rest, Canon(rest, ':', ':'))
  {
    forall k | 0 <= k < |rest|
      ensures Canon(rest, ':', ':')[k] == if rest[k] in "0123456789abcdefABCDEF" then rest[k] else ':'
    {
      HexDigits(rest[k]);
    }
  }

  lemma UsbPathText(rest: string)
    ensures ExtractHidapiPath("usb=" + rest) == Some(Canon(rest, ':', ':'))
  {
    var copy := "usb=" + rest;
    assert copy[0] == 'u' && IOKIT_PREFIX[0] == 'i' && RAW_PREFIX[0] == 'r' && copy[|USB_PREFIX|..] == rest;
  }

  /** What a name names, spelled out: colons for all that is no hex digit, or the rest of the name as it is. */
  lemma PathText(rest: string)
    ensures exists path :: ExtractHidapiPath("usb=" + rest) == Some(path) && IsUndotted(rest, path)
    ensures ExtractHidapiPath("raw=" + rest) == Some(rest)
    ensures ExtractHidapiPath("iokit=" + rest) == Some("IOService:" + rest)
  {
    UsbPathText(rest);
    UndottedIs(rest);
    RawNameReturns(rest);
    IokitNameReturns(rest);
  }

  /** Any other text names no path. */
  lemma ExtractRefusedIff(copy: string)
    ensures ExtractHidapiPath(copy) == None <==> !("usb=" <= copy) && !("raw=" <= copy) && !("iokit=" <= copy)
  {
  }

  // ----- Chips -----

  const SER_HID_CHIP_UNKNOWN := 0
  const SER_HID_CHIP_LAST := 5

  /** The chip table, in the order of the enum; the place holder has no entry. */
  function ChipName(idx: nat): Option<string> {
    if idx == 1 then Some("bu86x")
    else if idx == 2 then Some("cp2110")
    else if idx == 3 then Some("victor")
    else if idx == 4 then Some("ch9325")
    else None
  }

  predicate NamesChip(spec: string, idx: nat) {
    ChipName(idx).Some? && ChipName(idx).value <= spec
  }

  /** The enum and its names. */
  lemma ChipTable()
    ensures ChipName(SER_HID_CHIP_UNKNOWN) == None && SER_HID_CHIP_LAST == 5
    ensures ChipName(1) == Some("bu86x") && ChipName(2) == Some("cp2110")
    ensures ChipName(3) == Some("victor") && ChipName(4) == Some("ch9325")
    ensures forall i: nat :: ChipName(i).Some? ==> SER_HID_CHIP_UNKNOWN < i < SER_HID_CHIP_LAST
  {
  }

  /** No text starts with the names of two chips, so the order of the table does not matter. */
  lemma OneChip(spec: string, a: nat, b: nat)
    requires NamesChip(spec, a) && NamesChip(spec, b)
    ensures a == b
  {
    var x, y := ChipName(a).value, ChipName(b).value;
    assert x[0] == spec[0] == y[0] && x[1] == spec[1] == y[1];
  }

  /** The chip that the text starts with. */
  ghost function ChipOf(spec: string): (idx: nat)
    ensures idx < SER_HID_CHIP_LAST
    ensures forall i :: NamesChip(spec, i) ==> idx == i
    ensures idx != SER_HID_CHIP_UNKNOWN ==> NamesChip(spec, idx)
  {
    if exists i :: NamesChip(spec, i) then
      var i: nat :| NamesChip(spec, i);
      assert forall j :: NamesChip(spec, j) ==> i == j by {
        forall j | NamesChip(spec, j) ensures i == j {
          OneChip(spec, i, j);
        }
      }
      i
    else
      SER_HID_CHIP_UNKNOWN
  }

  /** ser_hid_chip_find_enum: the chip, and how many characters its name takes. */
  method ChipFindEnum(spec: string) returns (chip: nat, length: nat)
    ensures chip == ChipOf(spec)
    ensures length == if chip == SER_HID_CHIP_UNKNOWN then 0 else |ChipName(chip).value|
    ensures length <= |spec|
  {
    if spec == "" {
      return SER_HID_CHIP_UNKNOWN, 0;
    }
    var idx: nat := 0;
    while idx < SER_HID_CHIP_LAST
      invariant 0 <= idx <= SER_HID_CHIP_LAST
      invariant forall i: nat :: i < idx ==> !NamesChip(spec, i)
    {
      var name := ChipName(idx);
      if name.Some? && name.value <= spec {
        assert NamesChip(spec, idx);
        return idx, |name.value|;
      }
      idx := idx + 1;
    }
    return SER_HID_CHIP_UNKNOWN, 0;
  }

  // ----- Connection specs -----

  /** What a spec ends with. */
  datatype Field = NoField | Path(text: string) | Serial(number: string)

  datatype Parsed = Accepted(chip: nat, path: Option<string>, serno: Option<string>) | Refused(rc: int)

  predicate IsPathText(text: string) {
    USB_PREFIX <= text || IOKIT_PREFIX <= text || RAW_PREFIX <= text
  }

  /** What opening the path returns: `failures` maps the paths that do not open to an error code. */
  function TryOpenPath(failures: map<string, int>, path: string): int {
    if path in failures then failures[path] else SR_OK
  }

  function Slashes(n: nat): string {
    if n == 0 then "" else if n == 1 then "/" else "//"
  }

  function FieldText(field: Field): string {
    match field
    case NoField => ""
    case Path(text) => text
    case Serial(number) => SNR_PREFIX + number
  }

  function ChipText(chip: nat): string {
    if ChipName(chip).Some? then ChipName(chip).value else ""
  }

  /** The choices a writer of a spec has: the chip, the field, and where slashes stand. */
  predicate IsSpec(chip: nat, field: Field, before: nat, after: nat) {
    && chip < SER_HID_CHIP_LAST
    && (field.Path? ==> IsPathText(field.text))
    && before <= 1 && after <= 2 && (chip == SER_HID_CHIP_UNKNOWN ==> after == 0)
  }

  function PrintSpec(chip: nat, field: Field, before: nat, after: nat): string {
    CONN_PREFIX + (Slashes(before) + (ChipText(chip) + (Slashes(after) + FieldText(field))))
  }

  /** What a spec says, given which paths can be opened. */
  function Meaning(chip: nat, field: Field, failures: map<string, int>): Parsed {
    match field
    case NoField => Accepted(chip, None, None)
    case Serial(number) => Accepted(chip, None, Some(number))
    case Path(text) =>
      if TryOpenPath(failures, text) != SR_OK then Refused(TryOpenPath(failures, text))
      else Accepted(chip, Some(text), None)
  }

  function SkipSlash(rest: string): (r: string)
    ensures |r| <= |rest|
  {
    if rest != "" && rest[0] == '/' then rest[1..] else rest
  }

  /** What one turn of the parser's loop takes off the front of the text. */
  datatype Taken = Taken(rc: int, chip: nat, path: Option<string>, serno: Option<string>, length: nat)

  ghost function TakeField(p: string, chip: nat, failures: map<string, int>): (t: Taken)
    requires p != ""
    ensures 0 <= t.length <= |p|
    ensures t.path.None? && t.serno.None? && t.rc == SR_OK ==> t.length > 0
  {
    if IsPathText(p) then
      Taken(TryOpenPath(failures, p), chip, if TryOpenPath(failures, p) == SR_OK then Some(p) else None, None, |p|)
    else if SNR_PREFIX <= p then
      Taken(SR_OK, chip, None, Some(p[|SNR_PREFIX|..]), |p|)
    else if chip == SER_HID_CHIP_UNKNOWN && ChipOf(p) != SER_HID_CHIP_UNKNOWN then
      Taken(SR_OK, ChipOf(p), None, None, |ChipText(ChipOf(p))|)
    else
      Taken(SR_ERR_ARG, chip, None, None, 0)
  }

  /** The fields from `rest` on, after the chip, if any, was seen. */
  ghost function ParseFields(rest: string, chip: nat, failures: map<string, int>): Parsed
    decreases |rest|
  {
    var p := SkipSlash(rest);
    if p == "" then
      Accepted(chip, None, None)
    else
      var t := TakeField(p, chip, failures);
      if t.rc != SR_OK then Refused(t.rc)
      else if t.path.Some? || t.serno.Some? then Accepted(t.chip, t.path, t.serno)
      else ParseFields(SkipSlash(p[t.length..]), t.chip, failures)
  }

  ghost function ParseSpec(spec: string, failures: map<string, int>): Parsed {
    if CONN_PREFIX <= spec then ParseFields(spec[|CONN_PREFIX|..], SER_HID_CHIP_UNKNOWN, failures)
    else Refused(SR_ERR_ARG)
  }

  method ParseField(p: string, chip0: nat, failures: map<string, int>)
    returns (rc: int, chip: nat, path: Option<string>, serno: Option<string>, length: nat)
    requires p != ""
    ensures Taken(rc, chip, path, serno, length) == TakeField(p, chip0, failures)
  {
    rc, chip, path, serno, length := SR_OK, chip0, None, None, |p|;
    if IsPathText(p) {
      rc := TryOpenPath(failures, p);
      if rc == SR_OK {
        path := Some(p);
      }
    } else if SNR_PREFIX <= p {
      serno := Some(p[|SNR_PREFIX|..]);
    } else if chip == SER_HID_CHIP_UNKNOWN {
      chip, length := ChipFindEnum(p);
      if chip == SER_HID_CHIP_UNKNOWN {
        rc := SR_ERR_ARG;
      }
    } else {
      rc, length := SR_ERR_ARG, 0;
    }
  }

  lemma FieldTaken(rest: string, p: string, next: string, chip: nat, failures: map<string, int>, t: Taken)
    requires p == SkipSlash(rest) && p != "" && t == TakeField(p, chip, failures) && t.rc == SR_OK
    requires next == SkipSlash(p[t.length..])
    ensures ParseFields(rest, chip, failures) ==
      if t.path.Some? || t.serno.Some? then Accepted(t.chip, t.path, t.serno)
      else ParseFields(next, t.chip, failures)
  {
  }

  method PastSlash(p: string) returns (r: string)
    ensures r == SkipSlash(p)
  {
    r := p;
    if r != "" && r[0] == '/' {
      r := r[1..];
    }
  }

  /** The loop of ser_hid_parse_conn_spec; the read pointer `p` is the text that it points to. */
  method ParseRest(start: string, failures: map<string, int>) returns (r: Parsed)
    ensures r == ParseFields(start, SER_HID_CHIP_UNKNOWN, failures)
  {
    var p := start;
    var chip: nat := SER_HID_CHIP_UNKNOWN;
    var path, serno := None, None;
    while p != ""
      invariant path == None && serno == None
      invariant ParseFields(p, chip, failures) == ParseFields(start, SER_HID_CHIP_UNKNOWN, failures)
      decreases |p|
    {
      ghost var rest, seen := p, chip;
      p := PastSlash(p);
      if p == "" {
        break;
      }
      ghost var text := p;
      var rc, length;
      rc, chip, path, serno, length := ParseField(p, chip, failures);
      if rc != SR_OK {
        return Refused(rc);
      }
      p := PastSlash(p[length..]);
      FieldTaken(rest, text, p, seen, failures, Taken(rc, chip, path, serno, length));
      if path.Some? || serno.Some? {
        break;
      }
    }
    return Accepted(chip, path, serno);
  }

  /** ser_hid_parse_conn_spec */
  method ParseConnSpec(spec: string, failures: map<string, int>) returns (r: Parsed)
    ensures r == ParseSpec(spec, failures)
  {
    if spec == "" {
      return Refused(SR_ERR_ARG);
    }
    if !(CONN_PREFIX <= spec) {
      return Refused(SR_ERR_ARG);
    }
    var p := spec[|CONN_PREFIX|..];
    r := ParseRest(p, failures);
  }

  // ----- Every spec that can be written is read as meant, and nothing else is -----

  predicate IsField(field: Field) {
    field.Path? ==> IsPathText(field.text)
  }

  lemma NoLeadingSlash(field: Field)
    requires IsField(field)
    ensures SkipSlash(FieldText(field)) == FieldText(field)
    ensures SkipSlash("/" + FieldText(field)) == FieldText(field)
  {
    var text := FieldText(field);
    assert ("/" + text)[1..] == text;
    if text != "" {
      assert text[0] == 'u' || text[0] == 'i' || text[0] == 'r' || text[0] == 's';
    }
  }

  lemma SerialTaken(number: string, chip: nat, failures: map<string, int>)
    ensures TakeField(SNR_PREFIX + number, chip, failures) ==
      Taken(SR_OK, chip, None, Some(number), |SNR_PREFIX + number|)
  {
    var text := SNR_PREFIX + number;
    assert text[0] == 's';
    assert text[|SNR_PREFIX|..] == number;
  }

  lemma FieldParses(field: Field, n: nat, chip: nat, failures: map<string, int>)
    requires IsField(field) && n <= 1
    ensures ParseFields(Slashes(n) + FieldText(field), chip, failures) == Meaning(chip, field, failures)
  {
    NoLeadingSlash(field);
    var text := FieldText(field);
    assert "" + text == text;
    assert SkipSlash(Slashes(n) + text) == text;
    match field
    case NoField =>
    case Path(_) => assert text != "";
    case Serial(number) => SerialTaken(number, chip, failures);
  }

  lemma ChipTextHasNoSlash(chip: nat, rest: string)
    requires ChipName(chip).Some?
    ensures var p := ChipText(chip) + rest;
      && SkipSlash(p) == p && SkipSlash("/" + p) == p && !IsPathText(p) && !(SNR_PREFIX <= p)
      && ChipOf(p) == chip && p[|ChipText(chip)|..] == rest
  {
    var p := ChipText(chip) + rest;
    assert p[0] == 'b' || p[0] == 'c' || p[0] == 'v';
    assert ("/" + p)[1..] == p;
    assert p[..|ChipText(chip)|] == ChipText(chip);
    assert NamesChip(p, chip);
  }

  lemma SlashSkipped(n: nat, text: string)
    requires 1 <= n <= 2
    ensures SkipSlash(Slashes(n) + text) == Slashes(n - 1) + text
  {
    assert (Slashes(n) + text)[1..] == Slashes(n - 1) + text;
  }

  lemma SlashesBefore(n: nat, field: Field)
    requires n <= 2 && IsField(field)
    ensures SkipSlash(Slashes(n) + FieldText(field)) == Slashes(if n == 0 then 0 else n - 1) + FieldText(field)
  {
    if n == 0 {
      NoLeadingSlash(field);
      assert "" + FieldText(field) == FieldText(field);
    } else {
      SlashSkipped(n, FieldText(field));
    }
  }

  lemma ChipParses(chip: nat, before: nat, rest: string, failures: map<string, int>)
    requires ChipName(chip).Some? && before <= 1
    ensures ParseFields(Slashes(before) + (ChipText(chip) + rest), SER_HID_CHIP_UNKNOWN, failures) ==
      ParseFields(SkipSlash(rest), chip, failures)
  {
    var p := ChipText(chip) + rest;
    ChipTextHasNoSlash(chip, rest);
    assert "" + p == p;
    FieldTaken(Slashes(before) + p, p, SkipSlash(rest), SER_HID_CHIP_UNKNOWN, failures,
               TakeField(p, SER_HID_CHIP_UNKNOWN, failures));
  }

  lemma SpecDropsPrefix(chip: nat, field: Field, before: nat, after: nat)
    ensures var spec := PrintSpec(chip, field, before, after);
      && CONN_PREFIX <= spec
      && spec[|CONN_PREFIX|..] == Slashes(before) + (ChipText(chip) + (Slashes(after) + FieldText(field)))
  {
  }

  /** The parser reads every spec as it was meant. */
  lemma SpecMeans(chip: nat, field: Field, before: nat, after: nat, failures: map<string, int>)
    requires IsSpec(chip, field, before, after)
    ensures ParseSpec(PrintSpec(chip, field, before, after), failures) == Meaning(chip, field, failures)
  {
    SpecDropsPrefix(chip, field, before, after);
    var text := FieldText(field);
    if chip == SER_HID_CHIP_UNKNOWN {
      assert ChipText(chip) + (Slashes(after) + text) == text;
      FieldParses(field, before, chip, failures);
    } else {
      ChipParses(chip, before, Slashes(after) + text, failures);
      SlashesBefore(after, field);
      FieldParses(field, if after == 0 then 0 else after - 1, chip, failures);
    }
  }

  /** The name under which a cable is listed: hid, the chip and the path's name. */
  function ListedName(chip: nat, copy: string): string {
    CONN_PREFIX + "/" + ChipText(chip) + "/" + copy
  }

  lemma ListedNameIsSpec(chip: nat, copy: string)
    ensures ListedName(chip, copy) == PrintSpec(chip, Path(copy), 1, 1)
  {
    assert CONN_PREFIX + "/" + ChipText(chip) == CONN_PREFIX + ("/" + ChipText(chip));
  }

  lemma CopyIsPathText(path: string)
    ensures GetHidapiPathCopy(path).Some? ==> IsPathText(GetHidapiPathCopy(path).value)
  {
  }

  /** The name of a listed cable, as a connection spec, opens that chip at that path. */
  lemma ListedNameParses(chip: nat, path: string, copy: string, failures: map<string, int>)
    requires SER_HID_CHIP_UNKNOWN < chip < SER_HID_CHIP_LAST && GetHidapiPathCopy(path) == Some(copy)
    ensures ParseSpec(ListedName(chip, copy), failures) ==
      if copy in failures && failures[copy] != SR_OK then Refused(failures[copy])
      else Accepted(chip, Some(copy), None)
    ensures ExtractHidapiPath(copy) == Some(path)
  {
    CopyRoundTrip(path);
    CopyIsPathText(path);
    ListedNameIsSpec(chip, copy);
    SpecMeans(chip, Path(copy), 1, 1, failures);
  }

  lemma SpecText(chip: nat, name: string, field: Field)
    requires ChipName(chip) == Some(name)
    ensures PrintSpec(chip, field, 1, 1) == "hid/" + name + "/" + FieldText(field)
  {
    assert "hid/" + name == "hid" + ("/" + name);
  }

  lemma DocumentedForm(chip: nat, name: string, field: Field)
    requires ChipName(chip) == Some(name) && IsField(field)
    ensures ParseSpec("hid/" + name + "/" + FieldText(field), map[]) == Meaning(chip, field, map[])
  {
    SpecText(chip, name, field);
    SpecMeans(chip, field, 1, 1, map[]);
  }

  /** The documented forms of a spec: a chip, and a path or a serial number. */
  lemma DocumentedForms(chip: nat, name: string, rest: string)
    requires ChipName(chip) == Some(name)
    ensures ParseSpec("hid/" + name + "/" + ("usb=" + rest), map[]) == Accepted(chip, Some("usb=" + rest), None)
    ensures ParseSpec("hid/" + name + "/" + ("raw=" + rest), map[]) == Accepted(chip, Some("raw=" + rest), None)
    ensures ParseSpec("hid/" + name + "/" + ("iokit=" + rest), map[]) == Accepted(chip, Some("iokit=" + rest), None)
    ensures ParseSpec("hid/" + name + "/" + ("sn=" + rest), map[]) == Accepted(chip, None, Some(rest))
  {
    DocumentedForm(chip, name, Path("usb=" + rest));
    DocumentedForm(chip, name, Path("raw=" + rest));
    DocumentedForm(chip, name, Path("iokit=" + rest));
    DocumentedForm(chip, name, Serial(rest));
  }

  ghost predicate IsWritten(spec: string) {
    exists chip: nat, field, before: nat, after: nat ::
      IsSpec(chip, field, before, after) && spec == PrintSpec(chip, field, before, after)
  }

  function AsField(p: string): Field {
    if p == "" then NoField else if SNR_PREFIX <= p then Serial(p[|SNR_PREFIX|..]) else Path(p)
  }

  predicate EndsInField(p: string) {
    p == "" || SNR_PREFIX <= p || IsPathText(p)
  }

  lemma SlashCount(rest: string)
    ensures rest == Slashes(if rest == SkipSlash(rest) then 0 else 1) + SkipSlash(rest)
  {
    assert rest == "" + rest;
  }

  lemma FieldTextOf(p: string)
    requires EndsInField(p)
    ensures IsField(AsField(p)) && FieldText(AsField(p)) == p
  {
  }

  lemma NeitherFieldNorChip(rest: string, chip: nat, failures: map<string, int>)
    requires !EndsInField(SkipSlash(rest))
    requires chip != SER_HID_CHIP_UNKNOWN || ChipOf(SkipSlash(rest)) == SER_HID_CHIP_UNKNOWN
    ensures ParseFields(rest, chip, failures) == Refused(SR_ERR_ARG)
  {
  }

  lemma TwoSlashes(tail: string) returns (n: nat)
    ensures n <= 2 && tail == Slashes(n) + SkipSlash(SkipSlash(tail))
  {
    n := |tail| - |SkipSlash(SkipSlash(tail))|;
    SlashCount(tail);
    SlashCount(SkipSlash(tail));
  }

  lemma WrittenWithChip(spec: string, chip: nat, tail: string, q: string, before: nat)
    requires ChipName(chip).Some? && before <= 1 && EndsInField(q)
    requires spec == CONN_PREFIX + (Slashes(before) + (ChipText(chip) + tail))
    requires q == SkipSlash(SkipSlash(tail))
    ensures IsWritten(spec)
  {
    FieldTextOf(q);
    var n := TwoSlashes(tail);
    assert IsSpec(chip, AsField(q), before, n);
    assert spec == PrintSpec(chip, AsField(q), before, n);
  }

  lemma AfterChipRefused(spec: string, p: string, before: nat, failures: map<string, int>)
    requires spec == CONN_PREFIX + (Slashes(before) + p) && before <= 1 && !IsWritten(spec)
    requires ChipOf(p) != SER_HID_CHIP_UNKNOWN
    ensures ParseFields(SkipSlash(p[|ChipText(ChipOf(p))|..]), ChipOf(p), failures) == Refused(SR_ERR_ARG)
  {
    var chip := ChipOf(p);
    var tail := p[|ChipText(chip)|..];
    assert p == ChipText(chip) + tail;
    if EndsInField(SkipSlash(SkipSlash(tail))) {
      WrittenWithChip(spec, chip, tail, SkipSlash(SkipSlash(tail)), before);
    }
    NeitherFieldNorChip(SkipSlash(tail), chip, failures);
  }

  lemma WrittenPlain(spec: string, field: Field, before: nat)
    requires IsField(field) && before <= 1
    requires spec == CONN_PREFIX + (Slashes(before) + FieldText(field))
    ensures IsWritten(spec)
  {
    var text := FieldText(field);
    assert ChipText(SER_HID_CHIP_UNKNOWN) + (Slashes(0) + text) == text;
    assert IsSpec(SER_HID_CHIP_UNKNOWN, field, before, 0);
    assert spec == PrintSpec(SER_HID_CHIP_UNKNOWN, field, before, 0);
  }

  lemma OtherFieldsRefused(spec: string, rest: string, failures: map<string, int>)
    requires spec == CONN_PREFIX + rest && !IsWritten(spec)
    ensures ParseFields(rest, SER_HID_CHIP_UNKNOWN, failures) == Refused(SR_ERR_ARG)
  {
    var p := SkipSlash(rest);
    var before := if rest == p then 0 else 1;
    SlashCount(rest);
    if EndsInField(p) {
      FieldTextOf(p);
      WrittenPlain(spec, AsField(p), before);
    } else if ChipOf(p) == SER_HID_CHIP_UNKNOWN {
      NeitherFieldNorChip(rest, SER_HID_CHIP_UNKNOWN, failures);
    } else {
      AfterChipRefused(spec, p, before, failures);
      FieldTaken(rest, p, SkipSlash(p[|ChipText(ChipOf(p))|..]), SER_HID_CHIP_UNKNOWN, failures,
                 TakeField(p, SER_HID_CHIP_UNKNOWN, failures));
    }
  }

  /** What is not written by those rules is refused, whatever paths can be opened. */
  lemma OthersRefused(spec: string, failures: map<string, int>)
    requires !IsWritten(spec)
    ensures ParseSpec(spec, failures) == Refused(SR_ERR_ARG)
  {
    if CONN_PREFIX <= spec {
      var rest := spec[|CONN_PREFIX|..];
      OtherFieldsRefused(spec, rest, failures);
    }
  }
}
