/** Build metadata framed inside a compiled artifact, and how it is found again.
    Bytes are written as characters. */
module Envelope {
  import opened Options

  type Bytes = string

  const PREFIX: Bytes := "BARISTASCRIPT_BUILD_INFO_V1:"
  const SUFFIX: Bytes := ":END_BARISTASCRIPT_BUILD_INFO"
  const MAX_PAYLOAD := 65536
  const HEADER := 74

  datatype Error =
    | MalformedHeader
    | InvalidLength
    | Truncated
    | ChecksumMismatch
    | InvalidPayload
    | NotCanonical
    | Conflicting
    | Absent

  datatype Result<V> = Ok(value: V) | Err(error: Error)

  /** Validation, canonical JSON and the checksum, of which only this is used:
      a canonical payload parses back, and a checksum is 64 hexadecimal digits. */
  datatype Format<!V> = Format(canonical: V -> Bytes, parse: Bytes -> Option<V>, digest: Bytes -> Bytes)

  ghost predicate IsFormat<V(!new)>(f: Format<V>) {
    && (forall v: V :: f.parse(f.canonical(v)) == Some(v))
    && (forall v: V :: f.canonical(v) != "")
    && (forall b: Bytes :: |f.digest(b)| == 64 && AllHex(f.digest(b)))
  }

  // ---------------------------------------------------------------- hexadecimal

  predicate IsHex(c: char) {
    '0' <= c <= '9' || 'a' <= c <= 'f'
  }

  predicate AllHex(s: Bytes) {
    forall i :: 0 <= i < |s| ==> IsHex(s[i])
  }

  function Digit(c: char): (d: nat)
    requires IsHex(c)
    ensures d < 16
  {
    if c <= '9' then c as int - '0' as int else c as int - 'a' as int + 10
  }

  function DigitOf(d: nat): (c: char)
    requires d < 16
    ensures IsHex(c) && Digit(c) == d
  {
    if d < 10 then ('0' as int + d) as char else ('a' as int + d - 10) as char
  }

  function HexValue(s: Bytes): nat
    requires AllHex(s)
  {
    if s == "" then 0 else HexValue(s[..|s| - 1]) * 16 + Digit(s[|s| - 1])
  }

  /** The last `width` hexadecimal digits of a number. */
  function Hex(n: nat, width: nat): (s: Bytes)
    ensures |s| == width && AllHex(s)
  {
    if width == 0 then "" else Hex(n / 16, width - 1) + [DigitOf(n % 16)]
  }

  function Power16(k: nat): nat {
    if k == 0 then 1 else 16 * Power16(k - 1)
  }

  lemma {:induction false} HexRoundTrip(n: nat, width: nat)
    requires n < Power16(width)
    ensures HexValue(Hex(n, width)) == n
    decreases width
  {
    if width > 0 {
      HexRoundTrip(n / 16, width - 1);
      assert Hex(n, width)[..width - 1] == Hex(n / 16, width - 1);
    }
  }

  // ---------------------------------------------------------------- framing

  function Header<V>(f: Format<V>, payload: Bytes): Bytes {
    Hex(|payload|, 8) + ":" + f.digest(payload) + ":"
  }

  predicate Encodes<V>(f: Format<V>, v: V) {
    |f.canonical(v)| <= MAX_PAYLOAD
  }

  /** What stands behind the opening prefix. */
  function Body<V>(f: Format<V>, v: V): Bytes {
    Header(f, f.canonical(v)) + (f.canonical(v) + SUFFIX)
  }

  /** The envelope of a value, if its payload is not too long. */
  function EncodeEnvelope<V>(f: Format<V>, v: V): Option<Bytes> {
    if Encodes(f, v) then Some(PREFIX + Body(f, v)) else None
  }

  // ---------------------------------------------------------------- inspection

  /** The first occurrence of a nonempty needle. */
  function Find(needle: Bytes, content: Bytes): (r: Option<nat>)
    ensures r.Some? ==> r.value + |needle| <= |content|
  {
    if |content| < |needle| then None
    else if content[..|needle|] == needle then Some(0)
    else if content == [] then None
    else
      var later := Find(needle, content[1..]);
      if later.None? then None else Some(later.value + 1)
  }

  /** A slice as Python cuts it: clipped at the end. */
  function Clip(content: Bytes, from: nat, to: nat): (r: Bytes)
    requires from <= to
  {
    if from >= |content| then [] else if to >= |content| then content[from..] else content[from..to]
  }

  predicate IsHeader(header: Bytes) {
    && |header| == HEADER
    && AllHex(header[..8]) && header[8] == ':'
    && AllHex(header[9..73]) && header[73] == ':'
  }

  /** What stands behind an opening prefix: the value, and how far it reaches. */
  function ReadEnvelope<V(==)>(f: Format<V>, content: Bytes): (r: Result<(V, nat)>)
    ensures r.Ok? ==> 0 < r.value.1 <= |content|
  {
    var header := Clip(content, 0, HEADER);
    if !IsHeader(header) then Err(MalformedHeader)
    else
      var length := HexValue(header[..8]);
      if !(0 < length <= MAX_PAYLOAD) then Err(InvalidLength)
      else
        var payload := Clip(content, HEADER, HEADER + length);
        var end := HEADER + length;
        if Clip(content, end, end + |SUFFIX|) != SUFFIX then Err(Truncated)
        else if header[9..73] != f.digest(payload) then Err(ChecksumMismatch)
        else if f.parse(payload).None? then Err(InvalidPayload)
        else if f.canonical(f.parse(payload).value) != payload then Err(NotCanonical)
        else Ok((f.parse(payload).value, end + |SUFFIX|))
  }

  /** Reads what stands behind an opening prefix. */
  type Reader<V> = Bytes -> Result<(V, nat)>

  ghost predicate Advances<V(!new)>(read: Reader<V>) {
    forall b :: read(b).Ok? ==> 0 < read(b).value.1 <= |b|
  }

  datatype Frame<V> = NoFrame | BadFrame(error: Error) | Frame(value: V, reach: nat)

  /** The next frame, if an opening prefix follows: its value, and how far it
      reaches. */
  function NextFrame<V>(prefix: Bytes, read: Reader<V>, content: Bytes): Frame<V> {
    var start := Find(prefix, content);
    if start.None? then NoFrame
    else
      var framing := start.value + |prefix|;
      var frame := read(content[framing..]);
      if frame.Err? then BadFrame(frame.error) else Frame(frame.value.0, framing + frame.value.1)
  }

  /** The rest of the content, once `found` is the value of the first frame. */
  ghost function InspectRest<V(!new)>(prefix: Bytes, read: Reader<V>, content: Bytes, found: Option<V>): Result<V>
    requires Advances(read)
    decreases |content|
  {
    match NextFrame(prefix, read, content)
    case NoFrame => if found.Some? then Ok(found.value) else Err(Absent)
    case BadFrame(error) => Err(error)
    case Frame(value, reach) =>
      if found.Some? && found.value != value then Err(Conflicting)
      else InspectRest(prefix, read, content[reach..], Some(value))
  }

  ghost function Inspected<V(!new)>(f: Format<V>, content: Bytes): Result<V> {
    InspectRest(PREFIX, EnvelopeReader(f), content, None)
  }

  function EnvelopeReader<V(==)>(f: Format<V>): Reader<V> {
    b => ReadEnvelope(f, b)
  }

  /** `content.find(needle, position)`, which is negative if there is none. */
  method FindFrom(needle: Bytes, content: Bytes, position: nat) returns (start: int)
    requires position <= |content| && needle != []
    ensures if Find(needle, content[position..]).None? then start < 0
            else start == position + Find(needle, content[position..]).value
  {
    var i := position;
    while i + |needle| <= |content|
      invariant position <= i <= |content|
      invariant Find(needle, content[position..]) == Shifted(Find(needle, content[i..]), i - position)
    {
      assert content[i..][..|needle|] == content[i..i + |needle|];
      assert content[i..][1..] == content[i + 1..];
      if content[i..i + |needle|] == needle { return i; }
      i := i + 1;
    }
    return -1;
  }

  function Shifted(found: Option<nat>, offset: nat): Option<nat> {
    if found.None? then None else Some(found.value + offset)
  }

  method ReadNext<V>(prefix: Bytes, read: Reader<V>, content: Bytes, position: nat) returns (r: Frame<V>)
    requires position <= |content| && prefix != []
    ensures r == NextFrame(prefix, read, content[position..])
  {
    var start := FindFrom(prefix, content, position);
    if start < 0 { return NoFrame; }
    var framing := start + |prefix|;
    var frame := read(content[framing..]);
    if frame.Err? { return BadFrame(frame.error); }
    return Frame(frame.value.0, framing - position + frame.value.1);
  }

  method InspectFrames<V(==,!new)>(prefix: Bytes, read: Reader<V>, content: Bytes) returns (r: Result<V>)
    requires Advances(read) && prefix != []
    ensures r == InspectRest(prefix, read, content, None)
  {
    var found: Option<V> := None;
    var position := 0;
    ghost var rest, expected := content, InspectRest(prefix, read, content, None);
    while true
      invariant 0 <= position <= |content| && rest == content[position..]
      invariant InspectRest(prefix, read, rest, found) == expected
      decreases |rest|
    {
      var next := ReadNext(prefix, read, content, position);
      if next.NoFrame? { break; }
      if next.BadFrame? { return Err(next.error); }
      if found.Some? && found.value != next.value { return Err(Conflicting); }
      rest := rest[next.reach..];
      found := Some(next.value);
      position := position + next.reach;
    }
    if found.None? { return Err(Absent); }
    return Ok(found.value);
  }

  method InspectBytes<V(==,!new)>(f: Format<V>, content: Bytes) returns (r: Result<V>)
    ensures r == Inspected(f, content)
  {
    r := InspectFrames(PREFIX, EnvelopeReader(f), content);
  }

  // ---------------------------------------------------------------- finding a prefix behind a gap

  /** A needle whose last character occurs only once in it. */
  ghost predicate Unbordered(needle: Bytes) {
    needle != [] && forall k :: 0 <= k < |needle| - 1 ==> needle[k] != needle[|needle| - 1]
  }

  /** No occurrence starts in a gap and ends behind it. */
  lemma NothingStraddles(needle: Bytes, gap: Bytes, tail: Bytes)
    requires Unbordered(needle) && gap != [] && Find(needle, gap).None? && |needle| <= |gap + tail|
    requires forall j :: 0 <= j < |tail| && j < |needle| ==> tail[j] == needle[j]
    ensures (gap + tail)[..|needle|] != needle
  {
    var n := |needle|;
    if |gap| >= n {
      assert (gap + tail)[..n] == gap[..n];
    } else {
      assert (gap + tail)[..n][n - 1] == tail[n - 1 - |gap|] == needle[n - 1 - |gap|];
    }
  }

  lemma {:induction false} FoundBehindGap(needle: Bytes, gap: Bytes, rest: Bytes)
    requires Unbordered(needle) && Find(needle, gap).None?
    ensures Find(needle, gap + (needle + rest)) == Some(|gap|)
    decreases |gap|
  {
    var content := gap + (needle + rest);
    if gap == [] {
      assert content[..|needle|] == needle;
    } else {
      assert content[1..] == gap[1..] + (needle + rest);
      NothingStraddles(needle, gap, needle + rest);
      FoundBehindGap(needle, gap[1..], rest);
    }
  }

  /** A beginning of the needle behind a gap is no occurrence. */
  lemma {:induction false} NotFoundBehindGap(needle: Bytes, gap: Bytes, k: nat)
    requires Unbordered(needle) && Find(needle, gap).None? && k < |needle|
    ensures Find(needle, gap + needle[..k]).None?
    decreases |gap|
  {
    var content := gap + needle[..k];
    if |content| >= |needle| {
      assert content[1..] == gap[1..] + needle[..k];
      NothingStraddles(needle, gap, needle[..k]);
      NotFoundBehindGap(needle, gap[1..], k);
    }
  }

  // ---------------------------------------------------------------- one envelope

  /** The header of a payload is read back. */
  lemma HeaderIsRead<V(!new)>(f: Format<V>, payload: Bytes, rest: Bytes)
    requires IsFormat(f) && 0 < |payload| <= MAX_PAYLOAD
    ensures var header := Header(f, payload);
            && |header| == HEADER && Clip(header + rest, 0, HEADER) == header
            && IsHeader(header) && HexValue(header[..8]) == |payload| && header[9..73] == f.digest(payload)
  {
    var header := Header(f, payload);
    var length, digest := Hex(|payload|, 8), f.digest(payload);
    assert |digest| == 64 && AllHex(digest);
    assert |header| == HEADER;
    assert header[..8] == length && header[8] == ':' && header[9..73] == digest && header[73] == ':';
    assert (header + rest)[..HEADER] == header;
    HexRoundTrip(|payload|, 8);
  }

  /** Where payload and suffix stand. */
  lemma Layout(header: Bytes, payload: Bytes, suffix: Bytes, rest: Bytes)
    ensures var content := (header + (payload + suffix)) + rest;
            && Clip(content, |header|, |header| + |payload|) == payload
            && Clip(content, |header| + |payload|, |header| + |payload| + |suffix|) == suffix
  {
    var content := (header + (payload + suffix)) + rest;
    var from, to := |header|, |header| + |payload|;
    assert content[from..to] == payload;
    assert content[to..to + |suffix|] == suffix;
    assert from >= |content| ==> payload == [];
    assert to >= |content| ==> content[from..] == content[from..to] && suffix == [];
    assert to + |suffix| >= |content| ==> content[to..] == content[to..to + |suffix|];
  }

  lemma EnvelopeIsRead<V(!new)>(f: Format<V>, v: V, rest: Bytes)
    requires IsFormat(f) && Encodes(f, v)
    ensures ReadEnvelope(f, Body(f, v) + rest) == Ok((v, |Body(f, v)|))
  {
    var payload := f.canonical(v);
    var header := Header(f, payload);
    assert f.parse(payload) == Some(v) && payload != "";
    HeaderIsRead(f, payload, (payload + SUFFIX) + rest);
    Layout(header, payload, SUFFIX, rest);
    assert Body(f, v) + rest == header + ((payload + SUFFIX) + rest);
  }

  /** An envelope that was cut off behind its opening prefix is refused. */
  lemma CutEnvelopeIsRefused<V(!new)>(f: Format<V>, v: V, m: nat)
    requires IsFormat(f) && Encodes(f, v) && m < |Body(f, v)|
    ensures ReadEnvelope(f, Body(f, v)[..m]).Err?
  {
    var payload := f.canonical(v);
    var header := Header(f, payload);
    var body := Body(f, v);
    var cut := body[..m];
    assert payload != "";
    HeaderIsRead(f, payload, payload + SUFFIX);
    if m < HEADER {
      assert |Clip(cut, 0, HEADER)| < HEADER;
    } else {
      assert cut[..HEADER] == header;
      assert Clip(cut, 0, HEADER) == header;
      var end := HEADER + |payload|;
      assert |Clip(cut, end, end + |SUFFIX|)| < |SUFFIX|;
    }
  }

  // ---------------------------------------------------------------- frames among other bytes

  /** A frame without its prefix, and the bytes in front of it. */
  datatype Item<V> = Item(gap: Bytes, body: Bytes, value: V)

  ghost predicate ReadsAs<V(!new)>(read: Reader<V>, body: Bytes, v: V) {
    forall rest: Bytes :: read(body + rest) == Ok((v, |body|))
  }

  /** Other bytes contain no opening prefix of their own. */
  ghost predicate AreItems<V(!new)>(prefix: Bytes, read: Reader<V>, items: seq<Item<V>>) {
    forall i :: 0 <= i < |items| ==> Find(prefix, items[i].gap).None? && ReadsAs(read, items[i].body, items[i].value)
  }

  /** The bytes of the items, one behind the other, and then the tail. */
  function Joined<V>(prefix: Bytes, items: seq<Item<V>>, tail: Bytes): Bytes {
    if items == [] then tail
    else items[0].gap + (prefix + (items[0].body + Joined(prefix, items[1..], tail)))
  }

  /** The value that all items have, if they agree and there is one. */
  ghost function Agreed<V>(found: Option<V>, items: seq<Item<V>>): Result<V>
    decreases |items|
  {
    if items == [] then (if found.Some? then Ok(found.value) else Err(Absent))
    else if found.Some? && found.value != items[0].value then Err(Conflicting)
    else Agreed(Some(items[0].value), items[1..])
  }

  lemma {:induction false} AgreedIff<V(!new)>(items: seq<Item<V>>, v: V)
    ensures Agreed(Some(v), items) ==
      if forall i :: 0 <= i < |items| ==> items[i].value == v then Ok(v) else Err(Conflicting)
    decreases |items|
  {
    if items != [] {
      assert forall i :: 0 < i < |items| ==> items[1..][i - 1] == items[i];
      if items[0].value == v {
        AgreedIff(items[1..], v);
      }
    }
  }

  lemma BehindPrefix(gap: Bytes, prefix: Bytes, rest: Bytes)
    ensures (gap + (prefix + rest))[|gap| + |prefix|..] == rest
  {
  }

  lemma NextIsItem<V(!new)>(prefix: Bytes, read: Reader<V>, item: Item<V>, rest: Bytes)
    requires Unbordered(prefix) && Find(prefix, item.gap).None? && ReadsAs(read, item.body, item.value)
    ensures var content := item.gap + (prefix + (item.body + rest));
            var next := NextFrame(prefix, read, content);
            next.Frame? && next.value == item.value && next.reach <= |content| && content[next.reach..] == rest
  {
    var content := item.gap + (prefix + (item.body + rest));
    FoundBehindGap(prefix, item.gap, item.body + rest);
    BehindPrefix(item.gap, prefix, item.body + rest);
  }

  /** What inspection makes of whole frames and a tail behind them. */
  lemma {:induction false} InspectItems<V(!new)>(prefix: Bytes, read: Reader<V>, items: seq<Item<V>>, tail: Bytes,
                                                 found: Option<V>)
    requires Unbordered(prefix) && Advances(read) && AreItems(prefix, read, items)
    ensures var r := InspectRest(prefix, read, Joined(prefix, items, tail), found);
            if Agreed(found, items).Ok? then r == InspectRest(prefix, read, tail, Some(Agreed(found, items).value))
            else if items == [] then r == InspectRest(prefix, read, tail, None)
            else r == Err(Conflicting)
    decreases |items|
  {
    if items != [] {
      var rest := Joined(prefix, items[1..], tail);
      NextIsItem(prefix, read, items[0], rest);
      if found.None? || found.value == items[0].value {
        AgreedIff(items[1..], items[0].value);
        InspectItems(prefix, read, items[1..], tail, Some(items[0].value));
      }
    }
  }

  // ---------------------------------------------------------------- whole artifacts

  /** The opening prefix ends with its only colon. */
  lemma PrefixUnbordered()
    ensures Unbordered(PREFIX)
  {
  }

  /** Envelopes of values, among bytes without an opening prefix. */
  ghost predicate AreEnvelopes<V(!new)>(f: Format<V>, items: seq<Item<V>>) {
    forall i :: 0 <= i < |items| ==>
      Find(PREFIX, items[i].gap).None? && Encodes(f, items[i].value) && items[i].body == Body(f, items[i].value)
  }

  lemma EnvelopesAreItems<V(!new)>(f: Format<V>, items: seq<Item<V>>)
    requires IsFormat(f) && AreEnvelopes(f, items)
    ensures AreItems(PREFIX, EnvelopeReader(f), items)
  {
    forall i | 0 <= i < |items| ensures ReadsAs(EnvelopeReader(f), items[i].body, items[i].value) {
      forall rest: Bytes ensures EnvelopeReader(f)(items[i].body + rest) == Ok((items[i].value, |items[i].body|)) {
        EnvelopeIsRead(f, items[i].value, rest);
      }
    }
  }

  /** All envelopes encode the same value. */
  ghost predicate AllSame<V>(items: seq<Item<V>>) {
    forall i :: 0 <= i < |items| ==> items[i].value == items[0].value
  }

  lemma AgreedIffAllSame<V(!new)>(items: seq<Item<V>>)
    ensures Agreed(None, items) == if items == [] then Err(Absent) else if AllSame(items) then Ok(items[0].value)
                                                                        else Err(Conflicting)
  {
    if items != [] {
      AgreedIff(items[1..], items[0].value);
      assert forall i :: 0 < i < |items| ==> items[1..][i - 1] == items[i];
    }
  }

  /** Round trip: an artifact with one or more envelopes among other bytes has the
      value that all of them encode; if they differ, it is refused. */
  lemma ArtifactsAreReadBack<V(!new)>(f: Format<V>, items: seq<Item<V>>, tail: Bytes)
    requires IsFormat(f) && AreEnvelopes(f, items) && Find(PREFIX, tail).None?
    ensures Inspected(f, Joined(PREFIX, items, tail)) ==
      if items == [] then Err(Absent) else if AllSame(items) then Ok(items[0].value) else Err(Conflicting)
  {
    PrefixUnbordered();
    EnvelopesAreItems(f, items);
    InspectItems(PREFIX, EnvelopeReader(f), items, tail, None);
    AgreedIffAllSame(items);
  }

  /** What is encoded decodes to the value. */
  lemma EncodedValueIsReadBack<V(!new)>(f: Format<V>, v: V)
    requires IsFormat(f)
    ensures EncodeEnvelope(f, v).Some? <==> |f.canonical(v)| <= 65536
    ensures EncodeEnvelope(f, v).Some? ==> Inspected(f, EncodeEnvelope(f, v).value) == Ok(v)
  {
    if EncodeEnvelope(f, v).None? {
      return;
    }
    var items := [Item("", Body(f, v), v)];
    assert items[1..] == [];
    assert Joined(PREFIX, items, "") == EncodeEnvelope(f, v).value;
    ArtifactsAreReadBack(f, items, "");
  }

  lemma BadTail<V(!new)>(prefix: Bytes, read: Reader<V>, gap: Bytes, rest: Bytes, found: Option<V>)
    requires Unbordered(prefix) && Advances(read) && Find(prefix, gap).None? && read(rest).Err?
    ensures InspectRest(prefix, read, gap + (prefix + rest), found).Err?
  {
    FoundBehindGap(prefix, gap, rest);
    BehindPrefix(gap, prefix, rest);
  }

  lemma CutBehindPrefix<V(!new)>(f: Format<V>, items: seq<Item<V>>, gap: Bytes, v: V, m: nat)
    requires IsFormat(f) && AreEnvelopes(f, items) && Find(PREFIX, gap).None? && Encodes(f, v)
    requires m < |Body(f, v)|
    ensures Inspected(f, Joined(PREFIX, items, gap + (PREFIX + Body(f, v)[..m]))).Err?
  {
    PrefixUnbordered();
    EnvelopesAreItems(f, items);
    var rest := Body(f, v)[..m];
    CutEnvelopeIsRefused(f, v, m);
    InspectItems(PREFIX, EnvelopeReader(f), items, gap + (PREFIX + rest), None);
    BadTail(PREFIX, EnvelopeReader(f), gap, rest, None);
    if Agreed(None, items).Ok? {
      BadTail(PREFIX, EnvelopeReader(f), gap, rest, Some(Agreed(None, items).value));
    }
  }

  lemma CutInsidePrefix<V(!new)>(f: Format<V>, items: seq<Item<V>>, gap: Bytes, k: nat)
    requires IsFormat(f) && AreEnvelopes(f, items) && Find(PREFIX, gap).None? && k < |PREFIX|
    ensures Inspected(f, Joined(PREFIX, items, gap + PREFIX[..k])).Ok? <==> items != [] && AllSame(items)
  {
    PrefixUnbordered();
    NotFoundBehindGap(PREFIX, gap, k);
    ArtifactsAreReadBack(f, items, gap + PREFIX[..k]);
  }

  lemma TakeInside(a: Bytes, b: Bytes, k: nat)
    requires k <= |a|
    ensures (a + b)[..k] == a[..k]
  {
  }

  lemma TakeBehind(a: Bytes, b: Bytes, k: nat)
    requires |a| <= k <= |a| + |b|
    ensures (a + b)[..k] == a + b[..k - |a|]
  {
  }

  /** Truncation: when the last envelope is cut short, the artifact is accepted
      only if nothing of it but an incomplete opening prefix is left, and only for
      the value of the envelopes in front of it. */
  lemma CutArtifactsAreRefused<V(!new)>(f: Format<V>, items: seq<Item<V>>, gap: Bytes, v: V, k: nat)
    requires IsFormat(f) && AreEnvelopes(f, items) && Find(PREFIX, gap).None? && Encodes(f, v)
    requires k < |PREFIX| + |Body(f, v)|
    ensures Inspected(f, Joined(PREFIX, items, gap + (PREFIX + Body(f, v))[..k])).Ok? <==>
      k < |PREFIX| && items != [] && AllSame(items)
  {
    var body := Body(f, v);
    if k < |PREFIX| {
      TakeInside(PREFIX, body, k);
      CutInsidePrefix(f, items, gap, k);
    } else {
      TakeBehind(PREFIX, body, k);
      CutBehindPrefix(f, items, gap, v, k - |PREFIX|);
    }
  }

  // ---------------------------------------------------------------- nothing else is accepted

  lemma {:induction false} HexBack(s: Bytes)
    requires AllHex(s)
    ensures Hex(HexValue(s), |s|) == s
    decreases |s|
  {
    if s != "" {
      var front, last := s[..|s| - 1], s[|s| - 1];
      HexBack(front);
      assert HexValue(s) / 16 == HexValue(front) && HexValue(s) % 16 == Digit(last);
      assert DigitOf(Digit(last)) == last;
      assert s == front + [last];
    }
  }

  /** The content begins with eight hexadecimal digits and sixty-four, each followed
      by a colon. */
  ghost predicate BeginsLikeHeader(content: Bytes) {
    exists length, digest ::
      |length| == 8 && AllHex(length) && |digest| == 64 && AllHex(digest) && length + ":" + digest + ":" <= content
  }

  /** A header is called malformed exactly if it is not made so, whatever its digest. */
  lemma MalformedIff<V(!new)>(f: Format<V>, content: Bytes)
    ensures ReadEnvelope(f, content) == Err(MalformedHeader) <==> !BeginsLikeHeader(content)
  {
    var header := Clip(content, 0, HEADER);
    if IsHeader(header) {
      assert ":" == [':'];
      assert header == header[..8] + ":" + header[9..73] + ":";
      assert header <= content;
    }
    if length, digest :|
      |length| == 8 && AllHex(length) && |digest| == 64 && AllHex(digest) && length + ":" + digest + ":" <= content {
      var parts := length + ":" + digest + ":";
      assert |parts| == HEADER && content[..HEADER] == parts && header == parts;
      assert header[..8] == length && header[9..73] == digest;
    }
  }

  /** The header that was read is that of its payload. */
  lemma ReadHeaderIsOfPayload<V(!new)>(f: Format<V>, header: Bytes, payload: Bytes)
    requires IsHeader(header) && HexValue(header[..8]) == |payload| && header[9..73] == f.digest(payload)
    ensures header == Header(f, payload)
  {
    HexBack(header[..8]);
    assert header == header[..8] + [header[8]] + header[9..73] + [header[73]];
    assert ":" == [':'];
  }

  /** Three parts that were cut out one behind the other. */
  lemma PartsInARow(content: Bytes, header: Bytes, payload: Bytes, suffix: Bytes)
    requires suffix != [] && Clip(content, 0, |header|) == header
    requires Clip(content, |header|, |header| + |payload|) == payload
    requires Clip(content, |header| + |payload|, |header| + |payload| + |suffix|) == suffix
    ensures header + (payload + suffix) <= content
  {
    var end := |header| + |payload|;
    assert end + |suffix| <= |content|;
    assert content[..|header|] == header && content[|header|..end] == payload && content[end..end + |suffix|] == suffix;
    assert content[..end + |suffix|] == content[..|header|] + (content[|header|..end] + content[end..end + |suffix|]);
  }

  lemma ClippedShort(content: Bytes, from: nat, to: nat, behind: Bytes)
    requires from <= to && behind != [] && Clip(content, to, to + |behind|) == behind
    ensures |Clip(content, from, to)| == to - from
  {
  }

  lemma ReadIsEncoding<V(!new)>(f: Format<V>, content: Bytes, v: V, n: nat)
    requires ReadEnvelope(f, content) == Ok((v, n))
    ensures Encodes(f, v) && n == |Body(f, v)| && Body(f, v) <= content
  {
    var header := Clip(content, 0, HEADER);
    var end := HEADER + HexValue(header[..8]);
    var payload := Clip(content, HEADER, end);
    assert IsHeader(header) && f.canonical(v) == payload && n == end + |SUFFIX|;
    assert Clip(content, end, end + |SUFFIX|) == SUFFIX;
    ClippedShort(content, HEADER, end, SUFFIX);
    ReadHeaderIsOfPayload(f, header, payload);
    PartsInARow(content, header, payload, SUFFIX);
    BodyIs(f, v, header, payload);
  }

  lemma BodyIs<V(!new)>(f: Format<V>, v: V, header: Bytes, payload: Bytes)
    requires f.canonical(v) == payload && header == Header(f, payload)
    ensures Body(f, v) == header + (payload + SUFFIX)
  {
  }

  /** Nothing is read but the encoding of a value: whatever stands behind the prefix
      is accepted if and only if it begins with the rest of the value's envelope. */
  lemma OnlyEncodingsAreRead<V(!new)>(f: Format<V>, content: Bytes, v: V, n: nat)
    requires IsFormat(f)
    ensures ReadEnvelope(f, content) == Ok((v, n)) <==> Encodes(f, v) && n == |Body(f, v)| && Body(f, v) <= content
  {
    if ReadEnvelope(f, content) == Ok((v, n)) {
      ReadIsEncoding(f, content, v, n);
    }
    if Encodes(f, v) && Body(f, v) <= content {
      EnvelopeIsRead(f, v, content[|Body(f, v)|..]);
      assert content == Body(f, v) + content[|Body(f, v)|..];
    }
  }

  predicate OccursAt(needle: Bytes, content: Bytes, i: int) {
    0 <= i && i + |needle| <= |content| && content[i..i + |needle|] == needle
  }

  lemma ShiftedSlice(content: Bytes, i: nat, n: nat)
    requires 0 < i && i + n <= |content|
    ensures content[1..][i - 1..i - 1 + n] == content[i..i + n]
  {
    var a, b := content[1..][i - 1..i - 1 + n], content[i..i + n];
    assert forall k :: 0 <= k < n ==> a[k] == b[k];
  }

  /** The search finds the first occurrence, and one if there is one. */
  lemma {:induction false} FindIsFirst(needle: Bytes, content: Bytes)
    requires needle != []
    ensures match Find(needle, content)
            case None => forall i :: !OccursAt(needle, content, i)
            case Some(k) => OccursAt(needle, content, k) && forall i :: 0 <= i < k ==> !OccursAt(needle, content, i)
    decreases |content|
  {
    if |content| >= |needle| && content[..|needle|] != needle {
      var rest := content[1..];
      FindIsFirst(needle, rest);
      forall i | 0 < i && i + |needle| <= |content|
        ensures OccursAt(needle, content, i) <==> OccursAt(needle, rest, i - 1)
      {
        ShiftedSlice(content, i, |needle|);
      }
      if Find(needle, content).Some? {
        assert OccursAt(needle, rest, Find(needle, rest).value);
      }
    }
  }

  lemma NothingInside(needle: Bytes, content: Bytes, start: nat)
    requires needle != [] && start <= |content| && forall i :: 0 <= i < start ==> !OccursAt(needle, content, i)
    ensures Find(needle, content[..start]).None?
  {
    FindIsFirst(needle, content[..start]);
    if Find(needle, content[..start]).Some? {
      var i := Find(needle, content[..start]).value;
      assert content[..start][i..i + |needle|] == content[i..i + |needle|];
      assert OccursAt(needle, content, i);
    }
  }

  /** What stands before the first occurrence contains none. */
  lemma NothingBefore(needle: Bytes, content: Bytes)
    requires needle != [] && Find(needle, content).Some?
    ensures var start := Find(needle, content).value;
            && Find(needle, content[..start]).None?
            && content == content[..start] + (needle + content[start + |needle|..])
  {
    var start := Find(needle, content).value;
    FindIsFirst(needle, content);
    NothingInside(needle, content, start);
    assert content == content[..start] + (content[start..start + |needle|] + content[start + |needle|..]);
  }

  /** What stands before a frame is a gap, and the frame is what was read. */
  lemma FrameStandsBehindGap<V(!new)>(prefix: Bytes, read: Reader<V>, content: Bytes, v: V, reach: nat)
    returns (gap: Bytes, behind: Bytes)
    requires prefix != [] && NextFrame(prefix, read, content) == Frame(v, reach)
    ensures Find(prefix, gap).None? && content == gap + (prefix + behind)
    ensures read(behind).Ok? && read(behind).value.0 == v && reach == |gap| + |prefix| + read(behind).value.1
  {
    var start := Find(prefix, content).value;
    NothingBefore(prefix, content);
    gap, behind := content[..start], content[start + |prefix|..];
  }

  lemma TailOf(gap: Bytes, prefix: Bytes, behind: Bytes, body: Bytes, content: Bytes)
    requires content == gap + (prefix + behind) && body <= behind
    ensures |gap| + |prefix| + |body| <= |content| && behind == body + content[|gap| + |prefix| + |body|..]
  {
    assert content[|gap| + |prefix| + |body|..] == behind[|body|..];
  }

  /** Whatever is read has the body of its value. */
  ghost predicate ReadsOnly<V(!new)>(read: Reader<V>, bodyOf: V -> Bytes) {
    forall b: Bytes, w: V, n: nat :: read(b) == Ok((w, n)) ==> n == |bodyOf(w)| && bodyOf(w) <= b
  }

  /** The items are bodies of `v` behind gaps. */
  ghost predicate AreBodies<V(!new)>(prefix: Bytes, bodyOf: V -> Bytes, items: seq<Item<V>>, v: V) {
    forall i :: 0 <= i < |items| ==>
      Find(prefix, items[i].gap).None? && items[i].value == v && items[i].body == bodyOf(v)
  }

  ghost predicate CanBeRead<V(!new)>(read: Reader<V>, v: V) {
    exists b: Bytes, n: nat :: read(b) == Ok((v, n))
  }

  lemma FrameIsBody<V(!new)>(prefix: Bytes, read: Reader<V>, bodyOf: V -> Bytes, content: Bytes, v: V, reach: nat)
    returns (gap: Bytes)
    requires prefix != [] && ReadsOnly(read, bodyOf) && NextFrame(prefix, read, content) == Frame(v, reach)
    ensures Find(prefix, gap).None? && CanBeRead(read, v)
    ensures reach <= |content| && content == gap + (prefix + (bodyOf(v) + content[reach..]))
  {
    var behind;
    gap, behind := FrameStandsBehindGap(prefix, read, content, v, reach);
    assert read(behind) == Ok((v, |bodyOf(v)|));
    TailOf(gap, prefix, behind, bodyOf(v), content);
  }

  lemma {:induction false} AcceptedIsJoined<V(!new)>(prefix: Bytes, read: Reader<V>, bodyOf: V -> Bytes,
                                                     content: Bytes, found: Option<V>, v: V)
    returns (items: seq<Item<V>>, tail: Bytes)
    requires prefix != [] && Advances(read) && ReadsOnly(read, bodyOf)
    requires InspectRest(prefix, read, content, found) == Ok(v)
    ensures AreBodies(prefix, bodyOf, items, v) && Find(prefix, tail).None?
    ensures content == Joined(prefix, items, tail)
    ensures found == None ==> items != []
    ensures found.Some? ==> found.value == v
    ensures items != [] ==> CanBeRead(read, v)
    decreases |content|
  {
    items, tail := [], content;
    var next := NextFrame(prefix, read, content);
    if next.Frame? {
      var gap := FrameIsBody(prefix, read, bodyOf, content, next.value, next.reach);
      var more;
      more, tail := AcceptedIsJoined(prefix, read, bodyOf, content[next.reach..], Some(next.value), v);
      items := [Item(gap, bodyOf(next.value), next.value)] + more;
      assert items[1..] == more;
    }
  }

  /** The content consists of one or more envelopes of `v`, and of other bytes that
      contain no opening prefix. */
  ghost predicate IsMadeOf<V(!new)>(f: Format<V>, content: Bytes, v: V, items: seq<Item<V>>, tail: Bytes) {
    && items != [] && AreEnvelopes(f, items) && (forall i :: 0 <= i < |items| ==> items[i].value == v)
    && Find(PREFIX, tail).None? && content == Joined(PREFIX, items, tail)
  }

  lemma EnvelopesAreAccepted<V(!new)>(f: Format<V>, content: Bytes, v: V, items: seq<Item<V>>, tail: Bytes)
    requires IsFormat(f) && IsMadeOf(f, content, v, items, tail)
    ensures Inspected(f, content) == Ok(v)
  {
    ArtifactsAreReadBack(f, items, tail);
    assert AllSame(items);
  }

  lemma AcceptedIsMadeOfEnvelopes<V(!new)>(f: Format<V>, content: Bytes, v: V)
    returns (items: seq<Item<V>>, tail: Bytes)
    requires Inspected(f, content) == Ok(v)
    ensures IsMadeOf(f, content, v, items, tail)
  {
    var read, bodyOf := EnvelopeReader(f), w => Body(f, w);
    forall b: Bytes, w: V, n: nat | read(b) == Ok((w, n))
      ensures Encodes(f, w) && n == |bodyOf(w)| && bodyOf(w) <= b
    {
      ReadIsEncoding(f, b, w, n);
    }
    items, tail := AcceptedIsJoined(PREFIX, read, bodyOf, content, None, v);
    assert Encodes(f, v);
  }

  /** An artifact has the value `v` if and only if it is made of envelopes of `v`
      and other bytes. */
  lemma AcceptedIffMadeOfEnvelopes<V(!new)>(f: Format<V>, content: Bytes, v: V)
    requires IsFormat(f)
    ensures Inspected(f, content) == Ok(v) <==> exists items, tail :: IsMadeOf(f, content, v, items, tail)
  {
    if Inspected(f, content) == Ok(v) {
      var items, tail := AcceptedIsMadeOfEnvelopes(f, content, v);
    }
    if items, tail :| IsMadeOf(f, content, v, items, tail) {
      EnvelopesAreAccepted(f, content, v, items, tail);
    }
  }
}
