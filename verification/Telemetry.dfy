/** The payload that ctrl_tsk prints, the MAC string inside it, and one cycle of the task. */
module Telemetry {
  import opened CTypes
  import opened Json
  import opened Text
  import opened Mqtt

  // ---------- the MAC string ----------

  function HexDigit(n: nat): char
    requires n < 16
  {
    if n < 10 then (48 + n) as char else (87 + n) as char
  }

  function HexValue(c: char): (n: int)
    ensures -1 <= n < 16
    ensures 0 <= n ==> HexDigit(n) == c
  {
    if '0' <= c <= '9' then c as int - 48 else if 'a' <= c <= 'f' then c as int - 87 else -1
  }

  /** "%02x" for every byte */
  function HexText(bytes: seq<byte>): (s: string)
    ensures |s| == 2 * |bytes|
    ensures forall k :: 0 <= k < |s| ==> HexValue(s[k]) != -1
  {
    if bytes == [] then []
    else
      var b: int := bytes[0];
      [HexDigit(b / 16), HexDigit(b % 16)] + HexText(bytes[1..])
  }

  function ParseHex(s: string): Option<seq<byte>> {
    if s == [] then Some([])
    else if |s| < 2 || HexValue(s[0]) == -1 || HexValue(s[1]) == -1 then None
    else
      var rest :- ParseHex(s[2..]);
      Some([HexValue(s[0]) * 16 + HexValue(s[1])] + rest)
  }

  lemma HexCons(b: byte, rest: seq<byte>)
    ensures HexText([b] + rest) == [HexDigit(b / 16), HexDigit(b % 16)] + HexText(rest)
  {
    assert ([b] + rest)[1..] == rest;
  }

  /** The manufacturer's part of the address in the device's name. */
  lemma HexOfDevice()
    ensures HexText([0x24] + ([0xdc] + ([0xc3] + []))) == "24dcc3"
  {
    HexCons(0x24, [0xdc] + ([0xc3] + []));
    HexCons(0xdc, [0xc3] + []);
    HexCons(0xc3, []);
  }

  lemma {:induction false} HexRoundTrip(bytes: seq<byte>)
    ensures ParseHex(HexText(bytes)) == Some(bytes)
  {
    if bytes != [] {
      HexRoundTrip(bytes[1..]);
      assert HexText(bytes)[2..] == HexText(bytes[1..]);
      assert [bytes[0]] + bytes[1..] == bytes;
    }
  }

  /** get_mac_str, into any buffer with room for twelve digits and the NUL. */
  method GetMacStr(macstr: array<char>, macaddr: seq<byte>)
    requires |macaddr| == 6 && macstr.Length >= 13
    modifies macstr
    ensures macstr[..] == HexText(macaddr) + ['\0'] + old(macstr[..])[13..]
  {
    Sprintf(macstr, HexText(macaddr));
    macstr[12] := '\0';
  }

  // ---------- the payload ----------

  /** The register numbers in the labels of the format string, in order. */
  const LABELS: seq<int> :=
    [5, 6, 7, 8, 14, 15, 16, 17, 18, 19] + [20, 21, 22, 23, 24, 25, 61, 62, 63, 66] +
    [67, 68, 69, 76, 77, 78, 82, 83, 84]

  /** The register numbers of the arguments that follow it, in order. */
  const ARGUMENTS: seq<int> :=
    [5, 6, 7, 8, 14, 15, 16, 17, 18, 19] + [20, 21, 22, 23, 24, 25, 61, 62, 63, 66] +
    [67, 68, 69, 76, 77, 78, 82, 83, 84]

  const HEAD: string := "{\"rt\": true,\"u\": \""
  const STAMP: string := "\",\"ts\": "
  const LIST: string := ",\"m\": [{"

  /** The fixed texts around the labelled values. */
  datatype Layout = Layout(key: string, value: string, next: string, end: string)

  const LAYOUT := Layout("\"m\": \"_1_", "\",\"v\": ", "},{", "}]}")

  /** A labelled value, and what follows. */
  function Sample(t: Layout, key: int, value: int, rest: string): string {
    Field(t.key, key, Field(t.value, value, rest))
  }

  /** The labelled values, and the text that closes the list. */
  function Samples(t: Layout, labels: seq<int>, values: seq<int>): string
    requires |labels| == |values| > 0
  {
    Sample(t, labels[0], values[0], if |labels| == 1 then t.end else t.next + Samples(t, labels[1..], values[1..]))
  }

  function Print(mac: string, ts: int, labels: seq<int>, values: seq<int>): string
    requires |labels| == |values| > 0
  {
    TextField(HEAD, mac, Field(STAMP, ts, LIST + Samples(LAYOUT, labels, values)))
  }

  /** The arguments of the printed values. */
  function Arguments(registers: seq<int>): (values: seq<int>)
    requires |registers| == 128
    ensures |values| == |ARGUMENTS|
  {
    seq(|ARGUMENTS|, i requires 0 <= i < |ARGUMENTS| => if 0 <= ARGUMENTS[i] < 128 then registers[ARGUMENTS[i]] else 0)
  }

  function Payload(mac: string, ts: int, registers: seq<int>): string
    requires |registers| == 128
  {
    Print(mac, ts, LABELS, Arguments(registers))
  }

  // ---------- the payload as JSON ----------

  /** The number of the i-th register of the payload: the runs 5-8, 14-25, 61-63, 66-69, 76-78 and 82-84. */
  function RegisterAt(i: nat): nat
    requires i < 29
  {
    if i < 4 then 5 + i else if i < 16 then 10 + i else if i < 19 then 45 + i
    else if i < 23 then 47 + i else if i < 26 then 53 + i else 56 + i
  }

  predicate InRuns(k: nat) {
    5 <= k <= 8 || 14 <= k <= 25 || 61 <= k <= 63 || 66 <= k <= 69 || 76 <= k <= 78 || 82 <= k <= 84
  }

  lemma RegistersInRuns(k: nat)
    ensures (exists i :: 0 <= i < 29 && RegisterAt(i) == k) <==> InRuns(k)
  {
    if InRuns(k) {
      var i := if k <= 8 then k - 5 else if k <= 25 then k - 10 else if k <= 63 then k - 45
               else if k <= 69 then k - 47 else if k <= 78 then k - 53 else k - 56;
      assert RegisterAt(i) == k;
    }
  }

  lemma TableIsRegisters(i: nat)
    requires i < 29
    ensures |LABELS| == |ARGUMENTS| == 29 && LABELS[i] == ARGUMENTS[i] == RegisterAt(i)
  {
  }

  /** One entry of the list, as JSON. */
  function Entry(key: int, value: int): Json {
    Object(Member("m", String("_1_" + Decimal(key)), Member("v", Number(value), NoMembers)))
  }

  function Entries(keys: seq<int>, values: seq<int>): Items
    requires |keys| == |values|
  {
    if keys == [] then NoItems else Item(Entry(keys[0], values[0]), Entries(keys[1..], values[1..]))
  }

  /** The item at index i. */
  function Nth(items: Items, i: nat): Option<Json> {
    if items.NoItems? then None else if i == 0 then Some(items.first) else Nth(items.others, i - 1)
  }

  lemma {:induction false} NthOfEntries(keys: seq<int>, values: seq<int>, i: nat)
    requires |keys| == |values|
    ensures Nth(Entries(keys, values), i) == if i < |keys| then Some(Entry(keys[i], values[i])) else None
    decreases i
  {
    if keys != [] && i > 0 {
      NthOfEntries(keys[1..], values[1..], i - 1);
    }
  }

  lemma EntryQuotes(key: string, value: string)
    ensures "{\"m\": " + Quote("_1_" + key, ",\"v\": " + value) ==
            "{" + (LAYOUT.key + (key + (LAYOUT.value + value)))
  {
  }

  lemma EntryText(key: int, value: int, after: string)
    ensures "{" + Sample(LAYOUT, key, value, "}" + after) == Write(Entry(key, value), " ", after)
  {
    var v := Member("v", Number(value), NoMembers);
    MemberText("{", "{\"m\": ", "m", String("_1_" + Decimal(key)), v, " ", after);
    MemberText(",", ",\"v\": ", "v", Number(value), NoMembers, " ", after);
    EntryQuotes(Decimal(key), Decimal(value) + ("}" + after));
  }

  lemma {:induction false} SamplesText(keys: seq<int>, values: seq<int>)
    requires |keys| == |values| > 0
    ensures "{" + Samples(LAYOUT, keys, values) == WriteItems(Entries(keys, values), " ", "}")
  {
    if |keys| == 1 {
      EntryText(keys[0], values[0], "]" + "}");
      assert LAYOUT.end == "}" + ("]" + "}");
    } else {
      SamplesText(keys[1..], values[1..]);
      var more := Samples(LAYOUT, keys[1..], values[1..]);
      EntryText(keys[0], values[0], "," + ("{" + more));
      JoinText(",{", ",", "{", more);
      JoinText(LAYOUT.next, "}", ",{", more);
    }
  }

  lemma ListText(items: Items, samples: string)
    requires "{" + samples == WriteItems(items, " ", "}")
    ensures LIST + samples == "," + WriteMembers(Member("m", Array(items), NoMembers), " ", "")
  {
    MemberText(",", ",\"m\": ", "m", Array(items), NoMembers, " ", "");
    assert AfterMember(NoMembers, " ", "") == "}";
    JoinText(",\"m\": [", ",\"m\": ", "[", "{" + samples);
    JoinText(LIST, ",\"m\": [", "{", samples);
  }

  lemma StampText(ts: int, others: Members)
    requires others.Member?
    ensures STAMP + (Decimal(ts) + ("," + WriteMembers(others, " ", ""))) ==
            "\"" + ("," + WriteMembers(Member("ts", Number(ts), others), " ", ""))
  {
    MemberText(",", ",\"ts\": ", "ts", Number(ts), others, " ", "");
    JoinText(STAMP, "\"", ",\"ts\": ", Decimal(ts) + ("," + WriteMembers(others, " ", "")));
  }

  lemma HeadText(mac: string, others: Members)
    requires others.Member?
    ensures HEAD + (mac + ("\"" + ("," + WriteMembers(others, " ", "")))) ==
            "{" + WriteMembers(Member("rt", True, Member("u", String(mac), others)), " ", "")
  {
    var after := "," + WriteMembers(others, " ", "");
    MemberText("{", "{\"rt\": ", "rt", True, Member("u", String(mac), others), " ", "");
    MemberText(",", ",\"u\": ", "u", String(mac), others, " ", "");
    QuoteText(",\"u\": ", ",\"u\": \"", mac, after, "\"" + after);
    JoinText("{\"rt\": true", "{\"rt\": ", "true", ",\"u\": \"" + (mac + ("\"" + after)));
    JoinText(HEAD, "{\"rt\": true", ",\"u\": \"", mac + ("\"" + after));
  }

  /** The whole payload, around any list. */
  function Whole(mac: string, ts: int, items: Items): Json {
    Object(Member("rt", True, Member("u", String(mac), Member("ts", Number(ts), Member("m", Array(items), NoMembers)))))
  }

  lemma PrintText(mac: string, ts: int, keys: seq<int>, values: seq<int>)
    requires |keys| == |values| > 0
    ensures Print(mac, ts, keys, values) == Write(Whole(mac, ts, Entries(keys, values)), " ", "")
  {
    var m := Member("m", Array(Entries(keys, values)), NoMembers);
    SamplesText(keys, values);
    ListText(Entries(keys, values), Samples(LAYOUT, keys, values));
    StampText(ts, m);
    HeadText(mac, Member("ts", Number(ts), m));
  }

  lemma EntryPlain(key: int, value: int)
    ensures Plain(Entry(key, value))
  {
    var v := Member("v", Number(value), NoMembers);
    PlainMember("v", Number(value), NoMembers);
    PlainMember("m", String("_1_" + Decimal(key)), v);
  }

  lemma {:induction false} EntriesPlain(keys: seq<int>, values: seq<int>)
    requires |keys| == |values|
    ensures PlainItems(Entries(keys, values))
  {
    if keys != [] {
      EntryPlain(keys[0], values[0]);
      EntriesPlain(keys[1..], values[1..]);
    }
  }

  lemma WholePlain(mac: string, ts: int, items: Items)
    requires PlainText(mac) && PlainItems(items)
    ensures Plain(Whole(mac, ts, items))
  {
    var m := Member("m", Array(items), NoMembers);
    var s := Member("ts", Number(ts), m);
    PlainMember("m", Array(items), NoMembers);
    PlainMember("ts", Number(ts), m);
    PlainMember("u", String(mac), s);
    PlainMember("rt", True, Member("u", String(mac), s));
  }

  /**
   * Read as JSON, a payload has `rt` true, the MAC string under `u`, the time under `ts`, and under `m` exactly 29
   * entries: the text `_1_` and the register's number under `m`, and the contents of that register under `v`.
   */
  lemma PayloadRoundTrip(mac: string, ts: int, registers: seq<int>) returns (items: Items)
    requires |registers| == 128 && PlainText(mac)
    ensures ReadJson(Payload(mac, ts, registers)) ==
            Some(Object(Member("rt", True,
                        Member("u", String(mac),
                        Member("ts", Number(ts),
                        Member("m", Array(items), NoMembers))))))
    ensures forall i :: 0 <= i < 29 ==>
              Nth(items, i) ==
              Some(Object(Member("m", String("_1_" + Decimal(RegisterAt(i))),
                          Member("v", Number(registers[RegisterAt(i)]), NoMembers))))
    ensures Nth(items, 29).None?
  {
    TableIsRegisters(0);
    items := Entries(LABELS, Arguments(registers));
    PrintText(mac, ts, LABELS, Arguments(registers));
    EntriesPlain(LABELS, Arguments(registers));
    WholePlain(mac, ts, items);
    JsonRoundTrip(Whole(mac, ts, items), " ");
    forall i | 0 <= i < 29 ensures Nth(items, i) == Some(Entry(RegisterAt(i), registers[RegisterAt(i)])) {
      TableIsRegisters(i);
      NthOfEntries(LABELS, Arguments(registers), i);
    }
    NthOfEntries(LABELS, Arguments(registers), 29);
  }

  lemma HexIsPlain(bytes: seq<byte>)
    ensures PlainText(HexText(bytes)) && '\0' !in HexText(bytes)
  {
  }

  /** Payloads differ whenever the MAC address, the time or one of the 29 registers differs. */
  lemma PayloadInjective(mac1: seq<byte>, ts1: int, regs1: seq<int>, mac2: seq<byte>, ts2: int, regs2: seq<int>)
    requires |regs1| == |regs2| == 128
    requires Payload(HexText(mac1), ts1, regs1) == Payload(HexText(mac2), ts2, regs2)
    ensures mac1 == mac2 && ts1 == ts2
    ensures forall i :: 0 <= i < 29 ==> regs1[RegisterAt(i)] == regs2[RegisterAt(i)]
  {
    HexIsPlain(mac1);
    HexIsPlain(mac2);
    var items1 := PayloadRoundTrip(HexText(mac1), ts1, regs1);
    var items2 := PayloadRoundTrip(HexText(mac2), ts2, regs2);
    HexRoundTrip(mac1);
    HexRoundTrip(mac2);
    forall i | 0 <= i < 29 ensures regs1[RegisterAt(i)] == regs2[RegisterAt(i)] {
      assert Nth(items1, i) == Nth(items2, i);
    }
  }

  // ---------- the buffer ----------

  lemma {:induction false} SamplesLength(labels: seq<int>, values: seq<int>)
    requires |labels| == |values| > 0
    requires forall i :: 0 <= i < |labels| ==> 0 <= labels[i] < 100 && 0 <= values[i] < 0x1_0000
    ensures |Samples(LAYOUT, labels, values)| <= 26 * |labels|
  {
    DigitsLength(labels[0], 2);
    assert Pow10(5) == 100_000;
    DigitsLength(values[0], 5);
    if |labels| > 1 {
      SamplesLength(labels[1..], values[1..]);
    }
  }

  /** For 16-bit registers and a 32-bit time the payload and its NUL fit the buffer, with room to spare. */
  lemma PayloadFits(mac: string, ts: int, registers: seq<int>)
    requires |mac| == 12 && -0x8000_0000 <= ts < 0x8000_0000
    requires |registers| == 128 && forall k :: 0 <= k < 128 ==> 0 <= registers[k] < 0x1_0000
    ensures |Payload(mac, ts, registers)| <= 811 < 2000
  {
    TableIsRegisters(0);
    forall i | 0 <= i < 29
      ensures 0 <= LABELS[i] < 100 && 0 <= Arguments(registers)[i] < 0x1_0000
    {
      TableIsRegisters(i);
    }
    SamplesLength(LABELS, Arguments(registers));
    Decimal32Length(ts);
  }

  lemma {:induction false} SamplesAscii(t: Layout, labels: seq<int>, values: seq<int>)
    requires |labels| == |values| > 0
    requires Ascii(t.key) && Ascii(t.value) && Ascii(t.next) && Ascii(t.end)
    ensures Ascii(Samples(t, labels, values))
  {
    var rest := t.end;
    if |labels| > 1 {
      SamplesAscii(t, labels[1..], values[1..]);
      rest := t.next + Samples(t, labels[1..], values[1..]);
    }
    FieldAscii(t.value, values[0], rest);
    FieldAscii(t.key, labels[0], Field(t.value, values[0], rest));
  }

  lemma LayoutAscii()
    ensures Ascii(LAYOUT.key) && Ascii(LAYOUT.value) && Ascii(LAYOUT.next) && Ascii(LAYOUT.end)
  {
  }

  lemma FormatAscii()
    ensures Ascii(LIST) && Ascii(STAMP) && Ascii(HEAD)
  {
  }

  lemma TextAscii(a: string, b: string)
    requires Ascii(a) && Ascii(b)
    ensures Ascii(a + b)
  {
  }

  lemma PayloadAscii(mac: string, ts: int, registers: seq<int>)
    requires |registers| == 128 && Ascii(mac)
    ensures Ascii(Payload(mac, ts, registers))
  {
    TableIsRegisters(0);
    LayoutAscii();
    FormatAscii();
    var list := Samples(LAYOUT, LABELS, Arguments(registers));
    SamplesAscii(LAYOUT, LABELS, Arguments(registers));
    TextAscii(LIST, list);
    FieldAscii(STAMP, ts, LIST + list);
    TextAscii(mac, Field(STAMP, ts, LIST + list));
    TextAscii(HEAD, mac + Field(STAMP, ts, LIST + list));
  }

  // ---------- the task ----------

  /** array_modbus: 128 registers of 16 bits. */
  predicate Registers(registers: seq<int>) {
    |registers| == 128 && forall k :: 0 <= k < 128 ==> 0 <= registers[k] < 0x1_0000
  }

  lemma HexAscii(bytes: seq<byte>)
    ensures Ascii(HexText(bytes))
  {
  }

  class CtrlTask {
    const payloadChar: array<char>
    const tmpMacstr: array<char>
    var arrayModbus: seq<int>
    /** The messages handed to the client library, with the handle each was published through. */
    var published: seq<(Handle, string)>
    ghost var mac: seq<byte>

    ghost predicate Valid()
      reads this, tmpMacstr
    {
      && payloadChar.Length == 2000 && tmpMacstr.Length == 20 && payloadChar != tmpMacstr
      && |mac| == 6 && tmpMacstr[..13] == HexText(mac) + ['\0']
    }

    /** The part before the endless loop: the MAC string. */
    constructor (macaddr: seq<byte>)
      requires |macaddr| == 6
      ensures Valid() && mac == macaddr && published == []
      ensures fresh(payloadChar) && fresh(tmpMacstr)
    {
      payloadChar := new char[2000];
      var macstr := new char[20];
      tmpMacstr := macstr;
      arrayModbus, published, mac := [], [], macaddr;
      new;
      GetMacStr(macstr, macaddr);
    }

    /** One round of the endless loop: poll, and publish if the service state reads CONNECTED. */
    method Cycle(app: MqttApp, ts: int, polled: seq<int>)
      requires Valid() && Registers(polled) && -0x8000_0000 <= ts < 0x8000_0000
      modifies this`arrayModbus, this`published, payloadChar
      ensures Valid() && arrayModbus == polled
      ensures published == old(published) +
                if app.serviceState == MQTT_SERV_CONNECTED
                then [(app.mqttc, Payload(HexText(mac), ts, polled))] else []
    {
      arrayModbus := polled;
      var state := app.GetMqttServiceState();
      if state == MQTT_SERV_CONNECTED {
        HexAscii(mac);
        CStringReadsText(HexText(mac), tmpMacstr[13..]);
        assert tmpMacstr[..] == tmpMacstr[..13] + tmpMacstr[13..];
        var text := Payload(CString(tmpMacstr[..]), ts, arrayModbus);
        PayloadFits(HexText(mac), ts, polled);
        PayloadAscii(HexText(mac), ts, polled);
        ghost var was := payloadChar[..];
        Sprintf(payloadChar, text);
        CStringReadsText(text, was[|text| + 1..]);
        published := published + [(app.mqttc, CString(payloadChar[..]))];
      }
    }
  }
}
