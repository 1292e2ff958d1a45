/** Synthetic device profiles and their canonical snapshot. */
module DeviceSnapshot {
  import opened Wrappers
  import opened Bytes
  import Utf8

  const MAX_TEXT_BYTES: nat := 96
  const MAX_HOSTNAME_BYTES: nat := 63
  const SNAPSHOT_VERSION: byte := 1
  const TEXTS: nat := 14
  const ARCHITECTURE: string := " x86_64"
  const FAMILY: string := "Linux "

  datatype DeviceProfileError = DeviceProfileError

  type Guid = b: seq<byte> | |b| == 16 witness seq(16, _ => 0)
  type Mac = b: seq<byte> | |b| == 6 witness seq(6, _ => 0)

  // ---- texts ----

  /** `value.trim() == value` for a nonempty value. */
  predicate Trimmed(value: string)
    requires value != []
  {
    !Utf8.IsWhitespace(value[0]) && !Utf8.IsWhitespace(value[|value| - 1])
  }

  predicate ValidText(value: string) {
    value != [] && Utf8.Len(value) <= MAX_TEXT_BYTES && Trimmed(value) && !Utf8.HasControl(value)
  }

  predicate IsDigit(c: char) {
    '0' <= c <= '9'
  }

  predicate ValidHostname(value: string) {
    && Utf8.Len(value) <= MAX_HOSTNAME_BYTES
    && (forall i :: 0 <= i < |value| ==> 'a' <= value[i] <= 'z' || IsDigit(value[i]) || value[i] == '-')
    && (value != [] ==> value[0] != '-' && value[|value| - 1] != '-')
  }

  /** The number written by a digit string, before any overflow check. */
  function Decimal(value: string): nat
    requires forall i :: 0 <= i < |value| ==> IsDigit(value[i])
  {
    if value == [] then 0
    else
      assert IsDigit(value[|value| - 1]);
      10 * Decimal(value[..|value| - 1]) + (value[|value| - 1] as int - '0' as int)
  }

  predicate ValidPositiveDecimal(value: string) {
    && (forall i :: 0 <= i < |value| ==> IsDigit(value[i]))
    && value != [] && 0 < Decimal(value) <= U64_MAX
  }

  /** `strip_suffix` with the original as fallback. */
  function StripSuffix(s: string, suffix: string): string {
    if |suffix| <= |s| && s[|s| - |suffix|..] == suffix then s[..|s| - |suffix|] else s
  }

  function StripPrefix(s: string, prefix: string): string {
    if prefix <= s then s[|prefix|..] else s
  }

  // ---- what the texts may be ----

  function TrimStart(s: string): string {
    if s != [] && Utf8.IsWhitespace(s[0]) then TrimStart(s[1..]) else s
  }

  function TrimEnd(s: string): (r: string)
    ensures |r| <= |s|
  {
    if s != [] && Utf8.IsWhitespace(s[|s| - 1]) then TrimEnd(s[..|s| - 1]) else s
  }

  lemma {:induction false} TrimStartShortens(s: string)
    ensures |TrimStart(s)| <= |s|
    ensures TrimStart(s) == s <==> s == [] || !Utf8.IsWhitespace(s[0])
  {
    if s != [] && Utf8.IsWhitespace(s[0]) {
      TrimStartShortens(s[1..]);
    }
  }

  /** A text is accepted exactly if it has 1 to 96 octets, is its own trimmed form and has no control character. */
  lemma TextAcceptedIff(value: string)
    ensures ValidText(value)
       <==> value != "" && Utf8.Len(value) <= 96 && TrimEnd(TrimStart(value)) == value && !Utf8.HasControl(value)
  {
    TrimStartShortens(value);
  }

  /** A host name has small letters, digits and hyphens only, no hyphen at either end, and at most 63 octets. */
  lemma HostnameAcceptedIff(value: string)
    ensures ValidHostname(value)
       <==> && Utf8.Len(value) <= 63
            && (forall i :: 0 <= i < |value| ==>
                  97 <= value[i] as int <= 122 || 48 <= value[i] as int <= 57 || value[i] as int == 45)
            && !("-" <= value) && (value == "" || value[|value| - 1] as int != 45)
  {
  }

  function Digits(n: nat): string {
    (if n < 10 then [] else Digits(n / 10)) + [(n % 10 + 48) as char]
  }

  lemma {:induction false} DecimalOfDigits(n: nat)
    ensures forall i :: 0 <= i < |Digits(n)| ==> IsDigit(Digits(n)[i])
    ensures Decimal(Digits(n)) == n
  {
    var s := Digits(n);
    assert s[|s| - 1] == (n % 10 + 48) as char;
    if n >= 10 {
      DecimalOfDigits(n / 10);
      assert s[..|s| - 1] == Digits(n / 10);
    } else {
      assert s[..|s| - 1] == [];
    }
  }

  /** A printed number is a size exactly from 1 up to what 64 bits hold. */
  lemma SizeAcceptedIff(n: nat)
    ensures ValidPositiveDecimal(Digits(n)) <==> 1 <= n <= 0xFFFF_FFFF_FFFF_FFFF
  {
    DecimalOfDigits(n);
  }

  // ---- portraits and profiles ----

  datatype DevicePortrait = DevicePortrait(
    archetype: string,
    profileCategory: string,
    hostname: string,
    deviceName: string,
    hardwareModel: string,
    osRelease: string,
    distro: string,
    desktopEnvironment: string,
    sessionType: string,
    loginName: string,
    networkInterface: string,
    rootFilesystemBytes: string,
    memoryTotalKib: string,
    timezone: string
  )

  /** The texts in the order in which they are checked and stored. */
  function Texts(p: DevicePortrait): (texts: seq<string>)
    ensures |texts| == TEXTS
  {
    [p.archetype, p.profileCategory, p.hostname, p.deviceName, p.hardwareModel, p.osRelease, p.distro,
     p.desktopEnvironment, p.sessionType, p.loginName, p.networkInterface, p.rootFilesystemBytes, p.memoryTotalKib,
     p.timezone]
  }

  function PortraitOf(t: seq<string>): (p: DevicePortrait)
    requires |t| == TEXTS
    ensures Texts(p) == t
  {
    DevicePortrait(t[0], t[1], t[2], t[3], t[4], t[5], t[6], t[7], t[8], t[9], t[10], t[11], t[12], t[13])
  }

  predicate ValidTexts(texts: seq<string>) {
    forall i :: 0 <= i < |texts| ==> ValidText(texts[i])
  }

  predicate ValidPortrait(p: DevicePortrait) {
    && ValidTexts(Texts(p))
    && ValidHostname(p.hostname)
    && ValidPositiveDecimal(p.rootFilesystemBytes)
    && ValidPositiveDecimal(p.memoryTotalKib)
  }

  datatype DevicePower = Desktop | Portable(percent: u8, charging: bool)

  predicate ValidIdentity(guid: Guid, mac: Mac, power: DevicePower) {
    && guid != seq(16, _ => 0)
    && mac != seq(6, _ => 0) && mac != seq(6, _ => 0xFF) && mac[0] % 2 == 0
    && (power.Portable? ==> power.percent <= 100)
  }

  datatype DeviceProfile = DeviceProfile(
    guid: Guid,
    macAddress: Mac,
    deviceName: string,
    model: string,
    systemKernel: string,
    kernelVersion: string,
    power: DevicePower,
    portrait: DevicePortrait
  )

  function FromPortrait(guid: Guid, mac: Mac, portrait: DevicePortrait, power: DevicePower): Option<DeviceProfile> {
    if !ValidIdentity(guid, mac, power) then None
    else
      var systemKernel := StripSuffix(portrait.osRelease, ARCHITECTURE);
      Some(DeviceProfile(guid, mac, portrait.hostname, portrait.hardwareModel, systemKernel,
                         StripPrefix(systemKernel, FAMILY), power, portrait))
  }

  /** The texts `new` fills in, in portrait order. */
  const FIXED: seq<string> := [
    "custom", "custom", "Linux", "unknown", "x11", "user", "eth0", "499963174912", "16325684", "Asia/Shanghai"
  ]

  function CustomPortrait(fixed: seq<string>, deviceName: string, model: string, systemKernel: string): DevicePortrait
    requires |fixed| == 10
  {
    DevicePortrait(
      fixed[0], fixed[1], deviceName, model, model, systemKernel + ARCHITECTURE, fixed[2], fixed[3], fixed[4], fixed[5],
      fixed[6], fixed[7], fixed[8], fixed[9])
  }

  /** `DeviceProfile::new` */
  function NewProfile(guid: Guid, mac: Mac, deviceName: string, model: string, systemKernel: string,
                      kernelVersion: string, power: DevicePower): Option<DeviceProfile>
  {
    if !ValidIdentity(guid, mac, power) || !ValidTexts([deviceName, model, systemKernel, kernelVersion]) then None
    else
      var portrait := CustomPortrait(FIXED, deviceName, model, systemKernel);
      if !ValidPortrait(portrait) then None
      else Some(DeviceProfile(guid, mac, deviceName, model, systemKernel, kernelVersion, power, portrait))
  }

  // ---- the snapshot ----

  function LengthByte(value: string): byte {
    if Utf8.Len(value) <= 0xFF then Utf8.Len(value) else 0xFF
  }

  function TextsBytes(texts: seq<string>): seq<byte> {
    if texts == [] then []
    else [LengthByte(texts[0])] + Utf8.Encode(texts[0]) + TextsBytes(texts[1..])
  }

  function PowerBytes(power: DevicePower): (b: seq<byte>)
    ensures |b| == 3
  {
    match power
    case Desktop => [0, 0, 0]
    case Portable(percent, charging) => [1, percent, if charging then 1 else 0]
  }

  /** What a snapshot stores. */
  datatype Parts = Parts(guid: Guid, mac: Mac, texts: seq<string>, power: DevicePower)

  function PartsOf(p: DeviceProfile): Parts {
    Parts(p.guid, p.macAddress, Texts(p.portrait), p.power)
  }

  function Written(parts: Parts): seq<byte> {
    [SNAPSHOT_VERSION] + parts.guid + parts.mac + TextsBytes(parts.texts) + PowerBytes(parts.power)
  }

  function Snapshot(p: DeviceProfile): seq<byte> {
    Written(PartsOf(p))
  }

  function ReadText(b: seq<byte>): (r: Option<(string, seq<byte>)>)
    ensures r.Some? ==> |r.value.1| < |b|
  {
    if b == [] || |b| - 1 < b[0] then None
    else
      match Utf8.Decode(b[1..1 + b[0]])
      case None => None
      case Some(text) => Some((text, b[1 + b[0]..]))
  }

  /** The function that reads one text, when only what it reads matters. */
  type TextReader = seq<byte> -> Option<(string, seq<byte>)>

  function ReadTexts(read: TextReader, n: nat, b: seq<byte>): (r: Option<(seq<string>, seq<byte>)>)
    ensures r.Some? ==> |r.value.0| == n
    decreases n, |b|
  {
    if n == 0 then Some(([], b))
    else
      match read(b)
      case None => None
      case Some((text, rest)) =>
        match ReadTexts(read, n - 1, rest)
        case None => None
        case Some((texts, end)) => Some(([text] + texts, end))
  }

  function PowerOf(b: seq<byte>): Option<DevicePower> {
    if b == [0, 0, 0] then Some(Desktop)
    else if |b| == 3 && b[0] == 1 && b[2] <= 1 then Some(Portable(b[1], b[2] == 1))
    else None
  }

  function ReadParts(read: TextReader, b: seq<byte>): (r: Option<Parts>)
    ensures r.Some? ==> |r.value.texts| == TEXTS
  {
    if |b| < 23 || b[0] != SNAPSHOT_VERSION then None
    else
      match ReadTexts(read, TEXTS, b[23..])
      case None => None
      case Some((texts, end)) =>
        match PowerOf(end)
        case None => None
        case Some(power) => Some(Parts(b[1..17], b[17..23], texts, power))
  }

  function Assembled(parts: Parts): Option<DeviceProfile>
    requires |parts.texts| == TEXTS
  {
    if !ValidPortrait(PortraitOf(parts.texts)) then None
    else FromPortrait(parts.guid, parts.mac, PortraitOf(parts.texts), parts.power)
  }

  /** The profile carried by accepted bytes. */
  function Decoded(b: seq<byte>): Option<DeviceProfile> {
    match ReadParts(ReadText, b)
    case None => None
    case Some(parts) => Assembled(parts)
  }

  // ---- the source's reader and loops ----

  class SnapshotReader {
    var remaining: seq<byte>

    constructor (bytes: seq<byte>)
      ensures remaining == bytes
    {
      remaining := bytes;
    }

    method Byte() returns (r: Result<byte, DeviceProfileError>)
      modifies this
      ensures old(remaining) == [] ==> r.Err? && remaining == []
      ensures old(remaining) != [] ==> r == Ok(old(remaining)[0]) && remaining == old(remaining)[1..]
    {
      if remaining == [] {
        return Err(DeviceProfileError.DeviceProfileError);
      }
      r := Ok(remaining[0]);
      remaining := remaining[1..];
    }

    method Array(n: nat) returns (r: Result<seq<byte>, DeviceProfileError>)
      modifies this
      ensures |old(remaining)| < n ==> r.Err? && remaining == old(remaining)
      ensures |old(remaining)| >= n ==> r == Ok(old(remaining)[..n]) && remaining == old(remaining)[n..]
    {
      if |remaining| < n {
        return Err(DeviceProfileError.DeviceProfileError);
      }
      r := Ok(remaining[..n]);
      remaining := remaining[n..];
    }

    method Text() returns (r: Result<string, DeviceProfileError>)
      modifies this
      ensures r.Ok? <==> ReadText(old(remaining)).Some?
      ensures r.Ok? ==> ReadText(old(remaining)) == Some((r.value, remaining))
    {
      ghost var b := remaining;
      var length :- Byte();
      var value :- Array(length);
      assert value == b[1..1 + length] && remaining == b[1 + length..];
      var text := Utf8.Decode(value);
      r := if text.Some? then Ok(text.value) else Err(DeviceProfileError.DeviceProfileError);
    }

    /** `text` fourteen times, once for each argument of the portrait's constructor. */
    method PortraitTexts(ghost read: TextReader) returns (r: Result<seq<string>, DeviceProfileError>)
      requires forall b {:trigger ReadText(b)} :: ReadText(b) == read(b)
      modifies this
      ensures r.Ok? <==> ReadTexts(read, TEXTS, old(remaining)).Some?
      ensures r.Ok? ==> ReadTexts(read, TEXTS, old(remaining)) == Some((r.value, remaining))
    {
      var texts: seq<string> := [];
      ghost var whole := ReadTexts(read, TEXTS, remaining);
      NoTextsYet(whole);
      for i := 0 to TEXTS
        invariant |texts| == i
        invariant whole == Joined(texts, ReadTexts(read, TEXTS - i, remaining))
      {
        assert ReadText(remaining) == read(remaining);
        OneTextMore(read, texts, TEXTS - i, remaining);
        var text :- Text();
        texts := texts + [text];
      }
      assert texts + [] == texts;
      r := Ok(texts);
    }
  }

  /** Texts already read, before those still to come. */
  function Joined(texts: seq<string>, rest: Option<(seq<string>, seq<byte>)>): Option<(seq<string>, seq<byte>)> {
    match rest
    case None => None
    case Some((more, end)) => Some((texts + more, end))
  }

  lemma NoTextsYet(whole: Option<(seq<string>, seq<byte>)>)
    ensures Joined([], whole) == whole
  {
    assert whole.Some? ==> [] + whole.value.0 == whole.value.0;
  }

  lemma OneTextMore(read: TextReader, texts: seq<string>, n: nat, b: seq<byte>)
    requires n > 0
    ensures Joined(texts, ReadTexts(read, n, b))
         == match read(b)
            case None => None
            case Some((text, rest)) => Joined(texts + [text], ReadTexts(read, n - 1, rest))
  {
    if read(b).Some? {
      var (text, rest) := read(b).value;
      if ReadTexts(read, n - 1, rest).Some? {
        var more := ReadTexts(read, n - 1, rest).value.0;
        assert texts + ([text] + more) == texts + [text] + more;
      }
    }
  }

  lemma TextsBytesAppend(texts: seq<string>, text: string)
    ensures TextsBytes(texts + [text]) == TextsBytes(texts) + ([LengthByte(text)] + Utf8.Encode(text))
  {
    if texts == [] {
      assert [text][1..] == [];
    } else {
      assert (texts + [text])[1..] == texts[1..] + [text];
      TextsBytesAppend(texts[1..], text);
    }
  }

  method EncodeTexts(start: seq<byte>, texts: seq<string>) returns (output: seq<byte>)
    ensures output == start + TextsBytes(texts)
  {
    output := start;
    for i := 0 to |texts|
      invariant output == start + TextsBytes(texts[..i])
    {
      output := output + [LengthByte(texts[i])];
      output := output + Utf8.Encode(texts[i]);
      TextsBytesAppend(texts[..i], texts[i]);
      assert texts[..i + 1] == texts[..i] + [texts[i]];
    }
    assert texts[..|texts|] == texts;
  }

  method EncodeSnapshot(p: DeviceProfile) returns (output: seq<byte>)
    ensures output == Snapshot(p)
  {
    output := [SNAPSHOT_VERSION];
    output := output + p.guid;
    output := output + p.macAddress;
    output := EncodeTexts(output, Texts(p.portrait));
    output := output + PowerBytes(p.power);
  }

  /** The three bytes of power, and nothing after them. */
  method DecodePower(reader: SnapshotReader) returns (r: Result<DevicePower, DeviceProfileError>)
    modifies reader
    ensures r.Ok? <==> PowerOf(old(reader.remaining)).Some?
    ensures r.Ok? ==> PowerOf(old(reader.remaining)) == Some(r.value)
  {
    ghost var end := reader.remaining;
    var kind :- reader.Byte();
    var percent :- reader.Byte();
    var charging :- reader.Byte();
    assert end == [kind, percent, charging] + reader.remaining;
    var power: DevicePower;
    if kind == 0 && percent == 0 && charging == 0 {
      power := Desktop;
    } else if kind == 1 && charging <= 1 {
      power := Portable(percent, charging == 1);
    } else {
      return Err(DeviceProfileError.DeviceProfileError);
    }
    if reader.remaining != [] {
      return Err(DeviceProfileError.DeviceProfileError);
    }
    r := Ok(power);
  }

  method DecodeParts(reader: SnapshotReader, ghost read: TextReader)
    returns (r: Result<Parts, DeviceProfileError>)
    requires forall b {:trigger ReadText(b)} :: ReadText(b) == read(b)
    modifies reader
    ensures r.Ok? <==> ReadParts(read, old(reader.remaining)).Some?
    ensures r.Ok? ==> ReadParts(read, old(reader.remaining)) == Some(r.value)
  {
    ghost var bytes := reader.remaining;
    var version :- reader.Byte();
    if version != SNAPSHOT_VERSION {
      return Err(DeviceProfileError.DeviceProfileError);
    }
    var guid :- reader.Array(16);
    var mac :- reader.Array(6);
    assert guid == bytes[1..17] && mac == bytes[17..23] && reader.remaining == bytes[23..];
    var texts :- reader.PortraitTexts(read);
    var power :- DecodePower(reader);
    r := Ok(Parts(guid, mac, texts, power));
  }

  /** The checks come after all reading here; they fail with the same error in either order. */
  method DecodeSnapshot(bytes: seq<byte>) returns (r: Result<DeviceProfile, DeviceProfileError>)
    ensures r.Ok? <==> Decoded(bytes).Some?
    ensures r.Ok? ==> Decoded(bytes) == Some(r.value)
  {
    var reader := new SnapshotReader(bytes);
    var parts :- DecodeParts(reader, ReadText);
    var portrait := PortraitOf(parts.texts);
    if !ValidPortrait(portrait) {
      return Err(DeviceProfileError.DeviceProfileError);
    }
    var profile := FromPortrait(parts.guid, parts.mac, portrait, parts.power);
    r := if profile.Some? then Ok(profile.value) else Err(DeviceProfileError.DeviceProfileError);
  }

  // ---- texts survive ----

  lemma ReadTextOfBytes(text: string, rest: seq<byte>)
    requires Utf8.Len(text) <= 0xFF
    ensures ReadText([LengthByte(text)] + Utf8.Encode(text) + rest) == Some((text, rest))
  {
    var e := Utf8.Encode(text);
    var b := [LengthByte(text)] + e + rest;
    assert b[1..1 + |e|] == e && b[1 + |e|..] == rest;
    Utf8.DecodeOfEncode(text);
  }

  lemma BytesOfReadText(b: seq<byte>)
    requires ReadText(b).Some?
    ensures var (text, rest) := ReadText(b).value;
            Utf8.Len(text) <= 0xFF && b == [LengthByte(text)] + Utf8.Encode(text) + rest
  {
    var n := b[0];
    Utf8.EncodeOfDecode(b[1..1 + n]);
    assert b == [n] + b[1..1 + n] + b[1 + n..];
  }

  /** A reader that undoes the printing of every short text. */
  ghost predicate Undoes(read: TextReader, write: string -> seq<byte>) {
    forall text, rest {:trigger read(write(text) + rest)} ::
      Utf8.Len(text) <= 0xFF ==> read(write(text) + rest) == Some((text, rest))
  }

  ghost predicate Redoes(read: TextReader, write: string -> seq<byte>) {
    forall b {:trigger read(b)} :: read(b).Some? ==>
      Utf8.Len(read(b).value.0) <= 0xFF && b == write(read(b).value.0) + read(b).value.1
  }

  function TextBytes(text: string): seq<byte> {
    [LengthByte(text)] + Utf8.Encode(text)
  }

  lemma TheReaderInverts()
    ensures Undoes(ReadText, TextBytes) && Redoes(ReadText, TextBytes)
  {
    forall text, rest | Utf8.Len(text) <= 0xFF ensures ReadText(TextBytes(text) + rest) == Some((text, rest)) {
      ReadTextOfBytes(text, rest);
    }
    forall b | ReadText(b).Some?
      ensures Utf8.Len(ReadText(b).value.0) <= 0xFF && b == TextBytes(ReadText(b).value.0) + ReadText(b).value.1
    {
      BytesOfReadText(b);
    }
  }

  function Printed(write: string -> seq<byte>, texts: seq<string>): seq<byte> {
    if texts == [] then [] else write(texts[0]) + Printed(write, texts[1..])
  }

  lemma {:induction false} PrintedTexts(texts: seq<string>)
    ensures Printed(TextBytes, texts) == TextsBytes(texts)
  {
    if texts != [] {
      PrintedTexts(texts[1..]);
    }
  }

  lemma {:induction false} ReadOfPrinted(
    read: TextReader, write: string -> seq<byte>, texts: seq<string>, rest: seq<byte>)
    requires Undoes(read, write) && forall i :: 0 <= i < |texts| ==> Utf8.Len(texts[i]) <= 0xFF
    ensures ReadTexts(read, |texts|, Printed(write, texts) + rest) == Some((texts, rest))
  {
    if texts == [] {
      assert [] + rest == rest;
    } else {
      var b := Printed(write, texts) + rest;
      assert b == write(texts[0]) + (Printed(write, texts[1..]) + rest);
      ReadOfPrinted(read, write, texts[1..], rest);
      assert texts == [texts[0]] + texts[1..];
    }
  }

  lemma {:induction false} PrintedOfRead(read: TextReader, write: string -> seq<byte>, n: nat, b: seq<byte>)
    requires Redoes(read, write) && ReadTexts(read, n, b).Some?
    ensures var (texts, rest) := ReadTexts(read, n, b).value; b == Printed(write, texts) + rest
  {
    if n == 0 {
      assert [] + b == b;
    } else {
      var (text, rest) := read(b).value;
      PrintedOfRead(read, write, n - 1, rest);
      var (texts, end) := ReadTexts(read, n - 1, rest).value;
      assert ([text] + texts)[1..] == texts;
      assert b == write(text) + (Printed(write, texts) + end);
    }
  }

  // ---- snapshots ----

  lemma PowerRoundTrip(power: DevicePower)
    ensures PowerOf(PowerBytes(power)) == Some(power)
  {
  }

  lemma PowerIsCanonical(b: seq<byte>)
    requires PowerOf(b).Some?
    ensures PowerBytes(PowerOf(b).value) == b
  {
  }

  lemma Layout(parts: Parts)
    ensures var b := Written(parts);
            && |b| >= 23 && b[0] == SNAPSHOT_VERSION && b[1..17] == parts.guid && b[17..23] == parts.mac
            && b[23..] == TextsBytes(parts.texts) + PowerBytes(parts.power)
  {
    var head := [SNAPSHOT_VERSION] + parts.guid + parts.mac;
    assert Written(parts) == head + (TextsBytes(parts.texts) + PowerBytes(parts.power));
  }

  lemma PartsOfWritten(read: TextReader, parts: Parts)
    requires Undoes(read, TextBytes) && |parts.texts| == TEXTS
    requires forall i :: 0 <= i < |parts.texts| ==> Utf8.Len(parts.texts[i]) <= 0xFF
    ensures ReadParts(read, Written(parts)) == Some(parts)
  {
    Layout(parts);
    PrintedTexts(parts.texts);
    ReadOfPrinted(read, TextBytes, parts.texts, PowerBytes(parts.power));
    PowerRoundTrip(parts.power);
  }

  lemma WrittenOfParts(read: TextReader, b: seq<byte>)
    requires Redoes(read, TextBytes) && ReadParts(read, b).Some?
    ensures Written(ReadParts(read, b).value) == b
  {
    var parts := ReadParts(read, b).value;
    PrintedOfRead(read, TextBytes, TEXTS, b[23..]);
    var (texts, end) := ReadTexts(read, TEXTS, b[23..]).value;
    PrintedTexts(texts);
    PowerIsCanonical(end);
    Rejoin(b, TextsBytes(texts), end);
  }

  lemma Rejoin(b: seq<byte>, texts: seq<byte>, end: seq<byte>)
    requires |b| >= 23 && b[23..] == texts + end
    ensures [b[0]] + b[1..17] + b[17..23] + texts + end == b
  {
    assert [b[0]] + b[1..17] + b[17..23] + (texts + end) == b;
  }

  /** Decoding a snapshot rebuilds the profile from its identifiers, portrait and power. */
  lemma DecodedOfSnapshot(p: DeviceProfile)
    requires ValidPortrait(p.portrait)
    ensures Decoded(Snapshot(p)) == FromPortrait(p.guid, p.macAddress, p.portrait, p.power)
  {
    TheReaderInverts();
    ValidTextsAreShort(Texts(p.portrait));
    PartsOfWritten(ReadText, PartsOf(p));
    PartsAssemble(p);
  }

  lemma ValidTextsAreShort(texts: seq<string>)
    requires ValidTexts(texts)
    ensures forall i :: 0 <= i < |texts| ==> Utf8.Len(texts[i]) <= 0xFF
  {
    forall i | 0 <= i < |texts| ensures Utf8.Len(texts[i]) <= 0xFF {
      assert ValidText(texts[i]);
    }
  }

  lemma PartsAssemble(p: DeviceProfile)
    requires ValidPortrait(p.portrait)
    ensures Assembled(PartsOf(p)) == FromPortrait(p.guid, p.macAddress, p.portrait, p.power)
  {
    assert PortraitOf(Texts(p.portrait)) == p.portrait;
  }

  /** Every profile built from a portrait survives its snapshot unchanged. */
  lemma SnapshotRoundTrip(guid: Guid, mac: Mac, portrait: DevicePortrait, power: DevicePower)
    requires ValidPortrait(portrait) && FromPortrait(guid, mac, portrait, power).Some?
    ensures var p := FromPortrait(guid, mac, portrait, power); Decoded(Snapshot(p.value)) == p
  {
    DecodedOfSnapshot(FromPortrait(guid, mac, portrait, power).value);
  }

  /** Accepted bytes are canonical: encoding what they carry gives them back. */
  lemma AcceptedSnapshotIsCanonical(b: seq<byte>)
    requires Decoded(b).Some?
    ensures Snapshot(Decoded(b).value) == b
    ensures ValidPortrait(Decoded(b).value.portrait)
  {
    TheReaderInverts();
    WrittenOfParts(ReadText, b);
    assert PartsOf(Decoded(b).value) == ReadParts(ReadText, b).value;
  }

  lemma StripAppended(s: string, suffix: string)
    ensures StripSuffix(s + suffix, suffix) == s
  {
    assert (s + suffix)[|s|..] == suffix && (s + suffix)[..|s|] == s;
  }

  /** A set identifier, a station address that is set and not for a group of stations, and a possible percentage. */
  ghost predicate IsIdentity(guid: Guid, mac: Mac, power: DevicePower) {
    && (exists i :: 0 <= i < 16 && guid[i] > 0)
    && (exists i :: 0 <= i < 6 && mac[i] > 0)
    && mac[0] % 2 == 0
    && (power.Portable? ==> 0 <= power.percent <= 100)
  }

  lemma IdentityIff(guid: Guid, mac: Mac, power: DevicePower)
    ensures ValidIdentity(guid, mac, power) <==> IsIdentity(guid, mac, power)
  {
    assert mac == seq(6, _ => 0xFF) ==> mac[0] == 0xFF;
    assert (forall i :: 0 <= i < 16 ==> guid[i] == 0) ==> guid == seq(16, _ => 0);
    assert (forall i :: 0 <= i < 6 ==> mac[i] == 0) ==> mac == seq(6, _ => 0);
    assert guid == seq(16, _ => 0) ==> forall i :: 0 <= i < 16 ==> guid[i] == 0;
    assert mac == seq(6, _ => 0) ==> forall i :: 0 <= i < 6 ==> mac[i] == 0;
  }

  /** What a profile takes from its portrait: host name, hardware model, and the kernel from the release. */
  lemma ProfileShowsItsPortrait(guid: Guid, mac: Mac, portrait: DevicePortrait, power: DevicePower, kernel: string)
    ensures FromPortrait(guid, mac, portrait, power).Some? <==> IsIdentity(guid, mac, power)
    ensures FromPortrait(guid, mac, portrait, power).Some? ==>
      var p := FromPortrait(guid, mac, portrait, power).value;
      && PartsOf(p) == Parts(guid, mac, Texts(portrait), power)
      && p.deviceName == portrait.hostname && p.model == portrait.hardwareModel
      && (portrait.osRelease == kernel + " x86_64" ==> p.systemKernel == kernel)
      && (portrait.osRelease == "Linux " + kernel + " x86_64" ==> p.kernelVersion == kernel)
  {
    IdentityIff(guid, mac, power);
    StripAppended(kernel, ARCHITECTURE);
    StripAppended(FAMILY + kernel, ARCHITECTURE);
    assert (FAMILY + kernel)[|FAMILY|..] == kernel;
  }

  /** A profile from `new` comes back with everything but its kernel version, which is derived from the kernel name. */
  lemma NewProfileRecovered(guid: Guid, mac: Mac, deviceName: string, model: string, systemKernel: string,
                            kernelVersion: string, power: DevicePower)
    requires NewProfile(guid, mac, deviceName, model, systemKernel, kernelVersion, power).Some?
    ensures var p := NewProfile(guid, mac, deviceName, model, systemKernel, kernelVersion, power).value;
            && Decoded(Snapshot(p)) == Some(p.(kernelVersion := StripPrefix(systemKernel, FAMILY)))
            && (Decoded(Snapshot(p)) == Some(p) <==> kernelVersion == StripPrefix(systemKernel, FAMILY))
  {
    var p := NewProfile(guid, mac, deviceName, model, systemKernel, kernelVersion, power).value;
    DecodedOfSnapshot(p);
    StripAppended(systemKernel, ARCHITECTURE);
  }

  // ---- what `new` accepts ----

  /** Visible ASCII needs no further check than its length. */
  predicate Visible(s: string) {
    s != [] && forall i :: 0 <= i < |s| ==> '!' <= s[i] <= '~'
  }

  lemma VisibleIsValid(s: string)
    requires Visible(s) && |s| <= MAX_TEXT_BYTES
    ensures ValidText(s)
  {
    Utf8.AsciiLength(s);
  }

  function Pow10(n: nat): nat {
    if n == 0 then 1 else 10 * Pow10(n - 1)
  }

  lemma {:induction false} DecimalBounds(s: string)
    requires s != [] && (forall i :: 0 <= i < |s| ==> IsDigit(s[i])) && s[0] != '0'
    ensures 0 < Decimal(s) < Pow10(|s|)
  {
    if |s| == 1 {
      assert Decimal(s[..0]) == 0;
      assert Pow10(1) == 10 * Pow10(0);
    } else {
      DecimalBounds(s[..|s| - 1]);
    }
  }

  lemma TwelveDigitsFit(n: nat)
    requires n <= 12
    ensures Pow10(n) <= U64_MAX
  {
    assert Pow10(3) == 10 * (10 * (10 * Pow10(0)));
    assert Pow10(6) == 10 * (10 * (10 * Pow10(3)));
    assert Pow10(9) == 10 * (10 * (10 * Pow10(6)));
    assert Pow10(12) == 10 * (10 * (10 * Pow10(9)));
    Pow10Grows(n, 12);
  }

  lemma {:induction false} Pow10Grows(a: nat, b: nat)
    requires a <= b
    ensures Pow10(a) <= Pow10(b)
    decreases b - a
  {
    if a < b {
      Pow10Grows(a, b - 1);
    }
  }

  lemma VisibleTexts(texts: seq<string>)
    requires forall i :: 0 <= i < |texts| ==> Visible(texts[i]) && |texts[i]| <= MAX_TEXT_BYTES
    ensures ValidTexts(texts)
  {
    forall i | 0 <= i < |texts| ensures ValidText(texts[i]) {
      VisibleIsValid(texts[i]);
    }
  }

  predicate NumberText(s: string) {
    1 <= |s| <= 12 && s[0] != '0' && forall i :: 0 <= i < |s| ==> IsDigit(s[i])
  }

  lemma NumberTextIsValid(s: string)
    requires NumberText(s)
    ensures ValidPositiveDecimal(s)
  {
    DecimalBounds(s);
    TwelveDigitsFit(|s|);
  }

  lemma FixedTextsAreVisible()
    ensures forall i :: 0 <= i < |FIXED| ==> Visible(FIXED[i]) && |FIXED[i]| <= MAX_TEXT_BYTES
    ensures NumberText(FIXED[7]) && NumberText(FIXED[8])
  {
  }

  lemma {:induction false} LengthOfConcat(a: string, b: string)
    ensures Utf8.Len(a + b) == Utf8.Len(a) + Utf8.Len(b)
  {
    if a == [] {
      assert a + b == b;
    } else {
      assert (a + b)[1..] == a[1..] + b;
      LengthOfConcat(a[1..], b);
    }
  }

  lemma SuffixedIsValid(s: string, suffix: string)
    requires ValidText(s) && |suffix| > 1
    requires (forall i :: 0 <= i < |suffix| ==> ' ' <= suffix[i] <= '~') && suffix[|suffix| - 1] != ' '
    ensures ValidText(s + suffix) <==> Utf8.Len(s) + |suffix| <= MAX_TEXT_BYTES
  {
    LengthOfConcat(s, suffix);
    Utf8.AsciiLength(suffix);
  }

  /** Beyond the checks of `new` itself, the name must be a host name and the kernel must leave room for its suffix. */
  lemma NewAcceptsExactly(guid: Guid, mac: Mac, deviceName: string, model: string, systemKernel: string,
                          kernelVersion: string, power: DevicePower)
    ensures NewProfile(guid, mac, deviceName, model, systemKernel, kernelVersion, power).Some?
       <==> && IsIdentity(guid, mac, power)
            && ValidTexts([deviceName, model, systemKernel, kernelVersion])
            && ValidHostname(deviceName) && Utf8.Len(systemKernel) <= 89
  {
    IdentityIff(guid, mac, power);
    if ValidTexts([deviceName, model, systemKernel, kernelVersion]) {
      var four := [deviceName, model, systemKernel, kernelVersion];
      assert ValidText(four[0]) && ValidText(four[1]) && ValidText(four[2]);
      FixedTextsAreVisible();
      CustomPortraitIsValid(FIXED, deviceName, model, systemKernel);
    }
  }

  /** What the direct constructor fills in around its arguments. */
  lemma NewProfileShowsItsArguments(guid: Guid, mac: Mac, deviceName: string, model: string, systemKernel: string,
                                    kernelVersion: string, power: DevicePower)
    requires NewProfile(guid, mac, deviceName, model, systemKernel, kernelVersion, power).Some?
    ensures var p := NewProfile(guid, mac, deviceName, model, systemKernel, kernelVersion, power).value;
            && p.guid == guid && p.macAddress == mac && p.deviceName == deviceName && p.model == model
            && p.systemKernel == systemKernel && p.kernelVersion == kernelVersion && p.power == power
            && p.portrait
               == DevicePortrait("custom", "custom", deviceName, model, model, systemKernel + " x86_64", "Linux",
                                 "unknown", "x11", "user", "eth0", "499963174912", "16325684", "Asia/Shanghai")
  {
  }

  lemma CustomPortraitIsValid(fixed: seq<string>, deviceName: string, model: string, systemKernel: string)
    requires |fixed| == 10 && NumberText(fixed[7]) && NumberText(fixed[8])
    requires forall i :: 0 <= i < |fixed| ==> Visible(fixed[i]) && |fixed[i]| <= MAX_TEXT_BYTES
    requires ValidText(deviceName) && ValidText(model) && ValidText(systemKernel)
    ensures ValidPortrait(CustomPortrait(fixed, deviceName, model, systemKernel))
       <==> ValidHostname(deviceName) && Utf8.Len(systemKernel) <= MAX_TEXT_BYTES - 7
  {
    VisibleTexts(fixed);
    NumberTextIsValid(fixed[7]);
    NumberTextIsValid(fixed[8]);
    ArchitectureIsVisible();
    SuffixedIsValid(systemKernel, ARCHITECTURE);
    CustomTextsAreValid(ValidText, fixed, deviceName, model, systemKernel);
  }

  lemma ArchitectureIsVisible()
    ensures |ARCHITECTURE| == 7 && ARCHITECTURE[6] == '4'
    ensures forall i :: 0 <= i < |ARCHITECTURE| ==> ' ' <= ARCHITECTURE[i] <= '~'
  {
  }

  lemma CustomTextsAreValid(
    ok: string -> bool, fixed: seq<string>, deviceName: string, model: string, systemKernel: string)
    requires |fixed| == 10 && (forall i :: 0 <= i < |fixed| ==> ok(fixed[i])) && ok(deviceName) && ok(model)
    ensures var texts := Texts(CustomPortrait(fixed, deviceName, model, systemKernel));
            (forall i :: 0 <= i < |texts| ==> ok(texts[i])) <==> ok(systemKernel + ARCHITECTURE)
  {
    var texts := Texts(CustomPortrait(fixed, deviceName, model, systemKernel));
    assert texts[5] == systemKernel + ARCHITECTURE;
  }
}
