/** The JSON text of the mode list: how it is printed, and how it is read back. */
module ModeText {
  import opened Collections

  /** `ModeData`. */
  datatype ModeData = ModeData(
    dataPos: int, chuShuiLiang: int, canDelete: int,
    dataType: string, imageDir: string, modeName: string, temperature: string)

  // ----- numbers -----------------------------------------------------------------------------

  function Digit(d: nat): char
    requires d < 10
  {
    '0' + d as char
  }

  predicate IsDigit(c: char) { '0' <= c <= '9' }

  function DigitValue(c: char): (d: nat)
    requires IsDigit(c)
    ensures d < 10
  {
    (c as int) - ('0' as int)
  }

  function Digits(n: nat): string {
    if n < 10 then [Digit(n)] else Digits(n / 10) + [Digit(n % 10)]
  }

  /** `std::to_string`. */
  function IntText(n: int): string {
    if n < 0 then "-" + Digits(-n) else Digits(n)
  }

  predicate IsSpace(c: char) { c == ' ' || c == '\t' || c == '\n' || c == '\r' }

  function SkipSpace(s: string): (r: string)
    ensures |r| <= |s| && (r == [] || !IsSpace(r[0]))
  {
    if s != [] && IsSpace(s[0]) then SkipSpace(s[1..]) else s
  }

  function Number(s: string, acc: nat): nat
    decreases s
  {
    if s != [] && IsDigit(s[0]) then Number(s[1..], acc * 10 + DigitValue(s[0])) else acc
  }

  /** `atoll`, for numbers that a `long long` holds. */
  function Atoll(s: string): int {
    var t := SkipSpace(s);
    if t != [] && t[0] == '-' then 0 - (Number(t[1..], 0) as int)
    else if t != [] && t[0] == '+' then Number(t[1..], 0)
    else Number(t, 0)
  }

  /** The conversion of a `long long` to a 32-bit `int`. */
  function ToInt32(n: int): int {
    var m := n % 0x1_0000_0000;
    if m < 0x8000_0000 then m else m - 0x1_0000_0000
  }

  predicate IsInt32(n: int) { -0x8000_0000 <= n < 0x8000_0000 }

  lemma {:induction false} NumberSnoc(s: string, c: char, acc: nat)
    requires IsDigit(c) && forall i :: 0 <= i < |s| ==> IsDigit(s[i])
    ensures Number(s + [c], acc) == Number(s, acc) * 10 + DigitValue(c)
    decreases s
  {
    if s == [] {
      assert [c][1..] == [];
      assert s + [c] == [c];
      assert Number([], acc * 10 + DigitValue(c)) == acc * 10 + DigitValue(c);
    } else {
      assert (s + [c])[1..] == s[1..] + [c];
      NumberSnoc(s[1..], c, acc * 10 + DigitValue(s[0]));
    }
  }

  lemma {:induction false} DigitsRead(n: nat)
    ensures Digits(n) != [] && (forall i :: 0 <= i < |Digits(n)| ==> IsDigit(Digits(n)[i]))
    ensures Number(Digits(n), 0) == n
    decreases n
  {
    DigitBack(n % 10);
    if n < 10 {
      NumberSnoc([], Digit(n), 0);
      assert [] + [Digit(n)] == [Digit(n)];
    } else {
      DigitsRead(n / 10);
      NumberSnoc(Digits(n / 10), Digit(n % 10), 0);
    }
  }

  lemma DigitBack(d: nat)
    requires d < 10
    ensures IsDigit(Digit(d)) && DigitValue(Digit(d)) == d
  {
  }

  /** Every `int` survives printing and reading. */
  lemma {:induction false} IntRoundTrip(n: int)
    requires IsInt32(n)
    ensures ToInt32(Atoll(IntText(n))) == n && Plain(IntText(n))
  {
    DigitsRead(if n < 0 then -n else n);
    var d := Digits(if n < 0 then -n else n);
    if n < 0 { assert ("-" + d)[1..] == d; }
  }

  // ----- reading -----------------------------------------------------------------------------

  /** A character that stands for itself in a JSON string, section 7 of RFC 8259. */
  predicate PlainChar(c: char) { c != '"' && c != '\\' && c >= ' ' }

  predicate Plain(s: string) { forall i :: 0 <= i < |s| ==> PlainChar(s[i]) }

  /** The rest of a string after its opening quote. */
  function ReadChars(s: string): (r: Option<(string, string)>)
    ensures r.Some? ==> |r.value.1| < |s|
  {
    if s == [] then None
    else if s[0] == '"' then Some(("", s[1..]))
    else if !PlainChar(s[0]) then None
    else match ReadChars(s[1..])
      case None => None
      case Some((t, rest)) => Some(([s[0]] + t, rest))
  }

  function Expect(s: string, c: char): (r: Option<string>)
    ensures r.Some? ==> |r.value| < |s|
  {
    var t := SkipSpace(s);
    if t != [] && t[0] == c then Some(t[1..]) else None
  }

  function ReadString(s: string): (r: Option<(string, string)>)
    ensures r.Some? ==> |r.value.1| < |s|
  {
    match Expect(s, '"')
    case None => None
    case Some(t) => ReadChars(t)
  }

  /** One `"key":"value"`. */
  function ReadMember(s: string): (r: Option<(string, string, string)>)
    ensures r.Some? ==> |r.value.2| < |s|
  {
    match ReadString(s)
    case None => None
    case Some((key, t)) =>
      match Expect(t, ':')
      case None => None
      case Some(u) =>
        match ReadString(u)
        case None => None
        case Some((value, rest)) => Some((key, value, rest))
  }

  /** Members up to the closing brace, added to those read before. */
  function ReadMembers(s: string, acc: map<string, string>): (r: Option<(map<string, string>, string)>)
    ensures r.Some? ==> |r.value.1| < |s|
    decreases |s|
  {
    match ReadMember(s)
    case None => None
    case Some((key, value, t)) =>
      match Expect(t, '}')
      case Some(rest) => Some((acc[key := value], rest))
      case None =>
        match Expect(t, ',')
        case None => None
        case Some(u) => ReadMembers(u, acc[key := value])
  }

  function ReadObject(s: string): (r: Option<(map<string, string>, string)>)
    ensures r.Some? ==> |r.value.1| < |s|
  {
    match Expect(s, '{')
    case None => None
    case Some(t) =>
      match Expect(t, '}')
      case Some(rest) => Some((map[], rest))
      case None => ReadMembers(t, map[])
  }

  function ReadItems(s: string): Option<(seq<map<string, string>>, string)>
    decreases |s|
  {
    match ReadObject(s)
    case None => None
    case Some((m, t)) =>
      match Expect(t, ']')
      case Some(rest) => Some(([m], rest))
      case None =>
        match Expect(t, ',')
        case None => None
        case Some(u) =>
          match ReadItems(u)
          case None => None
          case Some((ms, rest)) => Some(([m] + ms, rest))
  }

  /** An array of flat objects with string values; the text must end with it. */
  function ReadArray(s: string): Option<seq<map<string, string>>> {
    match Expect(s, '[')
    case None => None
    case Some(t) =>
      match Expect(t, ']')
      case Some(rest) => if SkipSpace(rest) == [] then Some([]) else None
      case None =>
        match ReadItems(t)
        case None => None
        case Some((ms, rest)) => if SkipSpace(rest) == [] then Some(ms) else None
  }

  function GetJsonInt(m: map<string, string>, key: string): int {
    if key !in m then 0 else ToInt32(Atoll(m[key]))
  }

  function GetJsonString(m: map<string, string>, key: string): string {
    if key !in m then "" else m[key]
  }

  function FromJson(m: map<string, string>): ModeData {
    ModeData(GetJsonInt(m, "dataPos"), GetJsonInt(m, "chuShuiLiang"), GetJsonInt(m, "canDelete"),
             GetJsonString(m, "dataType"), GetJsonString(m, "imageDir"), GetJsonString(m, "modeName"),
             GetJsonString(m, "temperature"))
  }

  // ----- printing ----------------------------------------------------------------------------

  /** `ModeData::toString`. */
  function ToString(m: ModeData): string {
    "{\"dataPos\":\"" + IntText(m.dataPos)
    + "\",\"chuShuiLiang\":\"" + IntText(m.chuShuiLiang)
    + "\",\"canDelete\":\"" + IntText(m.canDelete)
    + "\",\"dataType\":\"" + m.dataType
    + "\",\"imageDir\":\"" + m.imageDir
    + "\",\"modeName\":\"" + m.modeName
    + "\",\"temperature\":\"" + m.temperature + "\"}"
  }

  /** The text that the loops of the mode list build: the modes in brackets, with commas between them. */
  function ListText(list: seq<ModeData>): string { "[" + ItemsText(list) + "]" }

  function ItemsText(list: seq<ModeData>): string {
    if list == [] then ""
    else if |list| == 1 then ToString(list[0])
    else ToString(list[0]) + "," + ItemsText(list[1..])
  }

  // ----- round trip --------------------------------------------------------------------------

  /** A string survives quoting and reading if and only if all its characters stand for themselves. */
  lemma {:induction false} StringRoundTripIff(v: string, rest: string)
    ensures ReadChars(v + "\"" + rest) == Some((v, rest)) <==> Plain(v)
    decreases v
  {
    var s := v + "\"" + rest;
    if v == [] {
      assert s == "\"" + rest && s[1..] == rest;
    } else {
      assert s[0] == v[0] && s[1..] == v[1..] + "\"" + rest;
      StringRoundTripIff(v[1..], rest);
      assert v == [v[0]] + v[1..];
      if Plain(v) { assert Plain(v[1..]); }
      if Plain(v[1..]) && PlainChar(v[0]) { assert Plain(v); }
    }
  }

  function MemberText(key: string, value: string): string { "\"" + key + "\":\"" + value + "\"" }

  lemma ReadStringBack(v: string, rest: string)
    requires Plain(v)
    ensures ReadString("\"" + (v + "\"" + rest)) == Some((v, rest))
  {
    var s := "\"" + (v + "\"" + rest);
    assert SkipSpace(s) == s && s[1..] == v + "\"" + rest;
    StringRoundTripIff(v, rest);
  }

  lemma ReadMemberBack(key: string, value: string, rest: string)
    requires Plain(key) && Plain(value)
    ensures ReadMember(MemberText(key, value) + rest) == Some((key, value, rest))
  {
    hide ReadString;
    var tail := "\"" + (value + "\"" + rest);
    var colon := ":" + tail;
    assert MemberText(key, value) + rest == "\"" + (key + "\"" + colon);
    ReadStringBack(key, colon);
    assert SkipSpace(colon) == colon && colon[1..] == tail;
    ReadStringBack(value, rest);
  }

  function MembersText(pairs: seq<(string, string)>): string
    requires pairs != []
  {
    if |pairs| == 1 then MemberText(pairs[0].0, pairs[0].1)
    else MemberText(pairs[0].0, pairs[0].1) + "," + MembersText(pairs[1..])
  }

  function MapOf(acc: map<string, string>, pairs: seq<(string, string)>): map<string, string>
    decreases pairs
  {
    if pairs == [] then acc else MapOf(acc[pairs[0].0 := pairs[0].1], pairs[1..])
  }

  predicate PlainPairs(pairs: seq<(string, string)>) {
    forall i :: 0 <= i < |pairs| ==> Plain(pairs[i].0) && Plain(pairs[i].1)
  }

  lemma {:induction false} ReadMembersBack(pairs: seq<(string, string)>, rest: string, acc: map<string, string>)
    requires pairs != [] && PlainPairs(pairs)
    ensures ReadMembers(MembersText(pairs) + "}" + rest, acc) == Some((MapOf(acc, pairs), rest))
    decreases pairs
  {
    hide ReadMember, MemberText;
    var (k, v) := pairs[0];
    var s := MembersText(pairs) + "}" + rest;
    if |pairs| == 1 {
      var t := "}" + rest;
      assert s == MemberText(k, v) + t;
      ReadMemberBack(k, v, t);
      assert SkipSpace(t) == t && t[1..] == rest;
      assert pairs[1..] == [];
    } else {
      var u := MembersText(pairs[1..]) + "}" + rest;
      var t := "," + u;
      assert s == MemberText(k, v) + t;
      ReadMemberBack(k, v, t);
      assert SkipSpace(t) == t && t[1..] == u;
      ReadMembersBack(pairs[1..], rest, acc[k := v]);
    }
  }

  function Pairs(m: ModeData): seq<(string, string)> {
    [("dataPos", IntText(m.dataPos)), ("chuShuiLiang", IntText(m.chuShuiLiang)), ("canDelete", IntText(m.canDelete)),
     ("dataType", m.dataType), ("imageDir", m.imageDir), ("modeName", m.modeName), ("temperature", m.temperature)]
  }

  lemma {:induction false} MembersSnoc(pairs: seq<(string, string)>, k: string, v: string)
    requires pairs != []
    ensures MembersText(pairs + [(k, v)]) == MembersText(pairs) + "," + MemberText(k, v)
    decreases pairs
  {
    hide MemberText;
    var more := pairs + [(k, v)];
    if |pairs| == 1 {
      assert more[1..] == [(k, v)];
    } else {
      assert more[1..] == pairs[1..] + [(k, v)];
      MembersSnoc(pairs[1..], k, v);
    }
  }

  /** One more field in the concatenation is one more member. */
  lemma OneMoreField(l: string, seg: string, pairs: seq<(string, string)>, k: string, v: string)
    requires pairs != [] && l + "\"" == "{" + MembersText(pairs) && seg == "\",\"" + k + "\":\""
    ensures l + seg + v + "\"" == "{" + MembersText(pairs + [(k, v)])
  {
    MembersSnoc(pairs, k, v);
    var m := MembersText(pairs);
    assert seg == "\"" + (",\"" + k + "\":\"");
    assert l + seg + v + "\"" == (l + "\"") + (",\"" + k + "\":\"" + v + "\"");
    assert "," + MemberText(k, v) == ",\"" + k + "\":\"" + v + "\"";
    assert ("{" + m) + (",\"" + k + "\":\"" + v + "\"") == "{" + (m + "," + MemberText(k, v));
  }

  function FirstHalf(m: ModeData): string {
    "{\"dataPos\":\"" + IntText(m.dataPos)
    + "\",\"chuShuiLiang\":\"" + IntText(m.chuShuiLiang)
    + "\",\"canDelete\":\"" + IntText(m.canDelete)
    + "\",\"dataType\":\"" + m.dataType
  }

  lemma FirstFields(m: ModeData)
    ensures FirstHalf(m) + "\"" == "{" + MembersText(Pairs(m)[..4])
  {
    hide IntText, MembersText, MemberText;
    var p := Pairs(m);
    var l0 := "{\"dataPos\":\"" + p[0].1;
    OneField(p[0].1);
    assert p[..1] == [("dataPos", p[0].1)];
    var l1 := l0 + "\",\"chuShuiLiang\":\"" + p[1].1;
    OneMoreField(l0, "\",\"chuShuiLiang\":\"", p[..1], "chuShuiLiang", p[1].1);
    assert p[..1] + [p[1]] == p[..2];
    var l2 := l1 + "\",\"canDelete\":\"" + p[2].1;
    OneMoreField(l1, "\",\"canDelete\":\"", p[..2], "canDelete", p[2].1);
    assert p[..2] + [p[2]] == p[..3];
    OneMoreField(l2, "\",\"dataType\":\"", p[..3], "dataType", p[3].1);
    assert p[..3] + [p[3]] == p[..4];
  }

  /** The printed object is its members in braces. */
  lemma ToStringIsMembers(m: ModeData)
    ensures ToString(m) == "{" + MembersText(Pairs(m)) + "}"
  {
    FirstFields(m);
    hide IntText, MembersText, MemberText;
    var p := Pairs(m);
    var l3 := FirstHalf(m);
    var l4 := l3 + "\",\"imageDir\":\"" + p[4].1;
    OneMoreField(l3, "\",\"imageDir\":\"", p[..4], "imageDir", p[4].1);
    assert p[..4] + [p[4]] == p[..5];
    var l5 := l4 + "\",\"modeName\":\"" + p[5].1;
    OneMoreField(l4, "\",\"modeName\":\"", p[..5], "modeName", p[5].1);
    assert p[..5] + [p[5]] == p[..6];
    var l6 := l5 + "\",\"temperature\":\"" + p[6].1;
    OneMoreField(l5, "\",\"temperature\":\"", p[..6], "temperature", p[6].1);
    assert p[..6] + [p[6]] == p;
    assert ToString(m) == l6 + "\"}";
    assert l6 + "\"}" == (l6 + "\"") + "}";
  }

  lemma OneField(v: string)
    ensures "{\"dataPos\":\"" + v + "\"" == "{" + MembersText([("dataPos", v)])
  {
  }

  /** A mode whose text fields are plain and whose numbers are `int`s, as the program's always are. */
  predicate Storable(m: ModeData) {
    && IsInt32(m.dataPos) && IsInt32(m.chuShuiLiang) && IsInt32(m.canDelete)
    && Plain(m.dataType) && Plain(m.imageDir) && Plain(m.modeName) && Plain(m.temperature)
  }

  lemma PairsRead(m: ModeData)
    requires Storable(m)
    ensures PlainPairs(Pairs(m)) && FromJson(MapOf(map[], Pairs(m))) == m
  {
    hide IntText, Atoll, ToInt32, IsInt32, Plain, MapOf, PlainPairs, FromJson;
    IntRoundTrip(m.dataPos);
    IntRoundTrip(m.chuShuiLiang);
    IntRoundTrip(m.canDelete);
    var p := Pairs(m);
    PairsPlain(p);
    SevenPairs(p);
    LookUpsRead(m, IntText(m.dataPos), IntText(m.chuShuiLiang), IntText(m.canDelete));
  }

  lemma LookUpsRead(m: ModeData, a: string, b: string, c: string)
    requires ToInt32(Atoll(a)) == m.dataPos && ToInt32(Atoll(b)) == m.chuShuiLiang && ToInt32(Atoll(c)) == m.canDelete
    ensures FromJson(map[]["dataPos" := a]["chuShuiLiang" := b]["canDelete" := c]["dataType" := m.dataType]
                          ["imageDir" := m.imageDir]["modeName" := m.modeName]["temperature" := m.temperature]) == m
  {
    hide Atoll, ToInt32;
    SevenLookUps(a, b, c, m.dataType, m.imageDir, m.modeName, m.temperature);
  }

  lemma SevenLookUps(a: string, b: string, c: string, d: string, e: string, f: string, g: string)
    ensures var o := map[]["dataPos" := a]["chuShuiLiang" := b]["canDelete" := c]["dataType" := d]
                          ["imageDir" := e]["modeName" := f]["temperature" := g];
            && "dataPos" in o && o["dataPos"] == a && "chuShuiLiang" in o && o["chuShuiLiang"] == b
            && "canDelete" in o && o["canDelete"] == c && "dataType" in o && o["dataType"] == d
            && "imageDir" in o && o["imageDir"] == e && "modeName" in o && o["modeName"] == f
            && "temperature" in o && o["temperature"] == g
  {
    assert "dataType"[4] != "imageDir"[4] && "dataType"[0] != "modeName"[0] && "imageDir"[0] != "modeName"[0];
  }

  lemma PairsPlain(p: seq<(string, string)>)
    requires |p| == 7 && forall i :: 0 <= i < 7 ==> Plain(p[i].1)
    requires p[0].0 == "dataPos" && p[1].0 == "chuShuiLiang" && p[2].0 == "canDelete" && p[3].0 == "dataType"
    requires p[4].0 == "imageDir" && p[5].0 == "modeName" && p[6].0 == "temperature"
    ensures PlainPairs(p)
  {
    assert Plain("dataPos") && Plain("chuShuiLiang") && Plain("canDelete") && Plain("dataType");
    assert Plain("imageDir") && Plain("modeName") && Plain("temperature");
  }

  lemma SevenPairs(p: seq<(string, string)>)
    requires |p| == 7
    ensures MapOf(map[], p) == map[][p[0].0 := p[0].1][p[1].0 := p[1].1][p[2].0 := p[2].1][p[3].0 := p[3].1]
                              [p[4].0 := p[4].1][p[5].0 := p[5].1][p[6].0 := p[6].1]
  {
    var a: map<string, string> := map[];
    a := OnePair(a, p, 0);
    a := OnePair(a, p, 1);
    a := OnePair(a, p, 2);
    a := OnePair(a, p, 3);
    a := OnePair(a, p, 4);
    a := OnePair(a, p, 5);
    a := OnePair(a, p, 6);
    assert p[7..] == [];
    assert p[0..] == p;
  }

  lemma OnePair(a: map<string, string>, p: seq<(string, string)>, i: nat) returns (b: map<string, string>)
    requires i < |p|
    ensures b == a[p[i].0 := p[i].1] && MapOf(a, p[i..]) == MapOf(b, p[i + 1..])
  {
    b := a[p[i].0 := p[i].1];
    assert p[i..][0] == p[i] && p[i..][1..] == p[i + 1..];
  }

  lemma ObjectOfPairs(m: ModeData, rest: string)
    requires Storable(m)
    ensures ReadObject(ToString(m) + rest) == Some((MapOf(map[], Pairs(m)), rest))
  {
    hide FromJson, ReadMembers, Storable, MembersText;
    ToStringIsMembers(m);
    PairsRead(m);
    var p := Pairs(m);
    var t := MembersText(p) + "}" + rest;
    var s := "{" + t;
    assert ToString(m) + rest == s;
    assert SkipSpace(s) == s && s[1..] == t;
    StartsWithQuote(p, "}" + rest);
    assert MembersText(p) + ("}" + rest) == t;
    ReadMembersBack(p, rest, map[]);
  }

  lemma ReadObjectBack(m: ModeData, rest: string)
    requires Storable(m)
    ensures exists o :: ReadObject(ToString(m) + rest) == Some((o, rest)) && FromJson(o) == m
  {
    hide FromJson, Storable, ReadObject, ToString;
    ObjectOfPairs(m, rest);
    PairsRead(m);
  }

  lemma StartsWithQuote(p: seq<(string, string)>, rest: string)
    requires p != []
    ensures Expect(MembersText(p) + rest, '}') == None
  {
    assert (MembersText(p) + rest)[0] == '"';
  }

  function AllFromJson(ms: seq<map<string, string>>): (list: seq<ModeData>)
    ensures |list| == |ms| && forall i :: 0 <= i < |ms| ==> list[i] == FromJson(ms[i])
  {
    if ms == [] then [] else [FromJson(ms[0])] + AllFromJson(ms[1..])
  }

  predicate AllStorable(list: seq<ModeData>) {
    forall i :: 0 <= i < |list| ==> Storable(list[i])
  }

  lemma {:induction false} ReadItemsBack(list: seq<ModeData>, rest: string)
    requires list != [] && AllStorable(list)
    ensures exists ms :: ReadItems(ItemsText(list) + "]" + rest) == Some((ms, rest)) && AllFromJson(ms) == list
    decreases list
  {
    hide ReadObject, FromJson, Storable, ToString;
    var m := list[0];
    var s := ItemsText(list) + "]" + rest;
    if |list| == 1 {
      var t := "]" + rest;
      assert s == ToString(m) + t;
      ReadObjectBack(m, t);
      var o :| ReadObject(s) == Some((o, t)) && FromJson(o) == m;
      assert SkipSpace(t) == t && t[1..] == rest;
      assert ReadItems(s) == Some(([o], rest));
      assert AllFromJson([o]) == list;
    } else {
      var u := ItemsText(list[1..]) + "]" + rest;
      var t := "," + u;
      assert s == ToString(m) + t;
      ReadObjectBack(m, t);
      var o :| ReadObject(s) == Some((o, t)) && FromJson(o) == m;
      assert SkipSpace(t) == t && t[1..] == u;
      ReadItemsBack(list[1..], rest);
      var ms :| ReadItems(u) == Some((ms, rest)) && AllFromJson(ms) == list[1..];
      assert ReadItems(s) == Some(([o] + ms, rest));
      assert AllFromJson([o] + ms) == list;
    }
  }

  /** The modes that a text holds, in the order of the text. */
  function ReadList(text: string): Option<seq<ModeData>> {
    match ReadArray(text)
    case None => None
    case Some(ms) => Some(AllFromJson(ms))
  }

  /** What is printed is read back, mode by mode, for every list. */
  lemma ListRoundTrip(list: seq<ModeData>)
    requires AllStorable(list)
    ensures ReadList(ListText(list)) == Some(list)
  {
    hide FromJson, Storable, ToString, ReadItems;
    var t := ItemsText(list) + "]";
    var s := ListText(list);
    assert s == "[" + t && SkipSpace(s) == s && s[1..] == t;
    if list == [] {
      assert t == "]" && t[1..] == "";
      assert AllFromJson([]) == [];
    } else {
      ReadItemsBack(list, "");
      assert t + "" == t;
      var ms :| ReadItems(t) == Some((ms, "")) && AllFromJson(ms) == list;
      ItemsStart(list);
    }
  }

  // ----- what can be read at all -------------------------------------------------------------

  predicate PlainMap(m: map<string, string>) {
    forall k :: k in m ==> Plain(m[k])
  }

  lemma {:induction false} CharsArePlain(s: string)
    ensures var r := ReadChars(s); r.Some? ==> Plain(r.value.0)
    decreases s
  {
    if s != [] { CharsArePlain(s[1..]); }
  }

  lemma MemberIsPlain(s: string)
    ensures var r := ReadMember(s); r.Some? ==> Plain(r.value.1)
  {
    hide Plain, ReadChars;
    match ReadString(s)
    case None =>
    case Some((key, t)) =>
      match Expect(t, ':')
      case None =>
      case Some(u) =>
        match Expect(u, '"')
        case None =>
        case Some(v) => CharsArePlain(v);
  }

  lemma {:induction false} MembersArePlain(s: string, acc: map<string, string>)
    requires PlainMap(acc)
    ensures var r := ReadMembers(s, acc); r.Some? ==> PlainMap(r.value.0)
    decreases |s|
  {
    hide Plain, ReadMember;
    MemberIsPlain(s);
    match ReadMember(s)
    case None =>
    case Some((key, value, t)) =>
      match Expect(t, ',')
      case None =>
      case Some(u) => MembersArePlain(u, acc[key := value]);
  }

  lemma ObjectIsStorable(s: string)
    ensures var r := ReadObject(s); r.Some? ==> Storable(FromJson(r.value.0))
  {
    hide Plain, ReadMembers;
    match Expect(s, '{')
    case None =>
    case Some(t) =>
      MembersArePlain(t, map[]);
      var r := ReadObject(s);
      if r.Some? { PlainIsStorable(r.value.0); }
  }

  lemma PlainIsStorable(m: map<string, string>)
    requires PlainMap(m)
    ensures Storable(FromJson(m))
  {
    hide Atoll;
    assert Plain("");
  }

  lemma {:induction false} ItemsAreStorable(s: string)
    ensures var r := ReadItems(s); r.Some? ==> AllStorable(AllFromJson(r.value.0))
    decreases |s|
  {
    hide Storable, FromJson, ReadObject;
    ObjectIsStorable(s);
    match ReadObject(s)
    case None =>
    case Some((m, t)) =>
      match Expect(t, ',')
      case None =>
      case Some(u) => ItemsAreStorable(u);
  }

  /** Whatever the text, only modes that can be stored are read from it. */
  lemma ReadIsStorable(text: string)
    ensures ReadList(text).Some? ==> AllStorable(ReadList(text).value)
  {
    hide Storable, FromJson, ReadItems;
    match Expect(text, '[')
    case None =>
    case Some(t) => ItemsAreStorable(t);
  }

  /** A list survives printing and reading if and only if its text fields are plain and its numbers 32-bit. */
  lemma ListRoundTripIff(list: seq<ModeData>)
    ensures ReadList(ListText(list)) == Some(list) <==> AllStorable(list)
  {
    hide ReadList, ListText, AllStorable;
    ReadIsStorable(ListText(list));
    if AllStorable(list) { ListRoundTrip(list); }
  }

  lemma ItemsStart(list: seq<ModeData>)
    requires list != []
    ensures Expect(ItemsText(list) + "]", ']') == None
  {
    assert ToString(list[0])[0] == '{';
    assert (ItemsText(list) + "]")[0] == '{';
  }
}
