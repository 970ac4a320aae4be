/** Mode lists in any layout: blanks between the marks of the text, and members in any order, make no difference. */
module ModeLayout {
  import opened Collections
  import opened ModeText

  /** The four characters that JSON allows between its marks, section 2 of RFC 8259. */
  predicate Blank(s: string) {
    forall i :: 0 <= i < |s| ==> s[i] == ' ' || s[i] == '\t' || s[i] == '\n' || s[i] == '\r'
  }

  lemma {:induction false} BlanksSkipped(ws: string, c: char, t: string)
    requires Blank(ws) && c != ' ' && c != '\t' && c != '\n' && c != '\r'
    ensures SkipSpace(ws + [c] + t) == [c] + t && Expect(ws + [c] + t, c) == Some(t)
    ensures forall d :: d != c ==> Expect(ws + [c] + t, d) == None
    decreases ws
  {
    var s := ws + [c] + t;
    if ws == [] {
      assert s == [c] + t;
    } else {
      assert s[1..] == ws[1..] + [c] + t;
      BlanksSkipped(ws[1..], c, t);
    }
    assert ([c] + t)[1..] == t;
  }

  lemma {:induction false} OnlyBlanks(ws: string)
    requires Blank(ws)
    ensures SkipSpace(ws) == []
    decreases ws
  {
    if ws != [] { OnlyBlanks(ws[1..]); }
  }

  // ----- texts with gaps ---------------------------------------------------------------------

  function Quoted(s: string): string { ['"'] + s + ['"'] }

  /** A member with the gaps `g(n)`, `g(n + 1)` and `g(n + 2)` before its marks. */
  function MemberLaid(k: string, v: string, g: nat -> string, n: nat): string {
    g(n) + Quoted(k) + g(n + 1) + [':'] + g(n + 2) + Quoted(v)
  }

  function MembersLaid(pairs: seq<(string, string)>, g: nat -> string, n: nat): string
    requires pairs != []
    decreases pairs
  {
    if |pairs| == 1 then MemberLaid(pairs[0].0, pairs[0].1, g, n)
    else MemberLaid(pairs[0].0, pairs[0].1, g, n) + g(n + 3) + [','] + MembersLaid(pairs[1..], g, n + 4)
  }

  function ObjectLaid(pairs: seq<(string, string)>, g: nat -> string, n: nat): string
    requires pairs != []
  {
    g(n) + ['{'] + MembersLaid(pairs, g, n + 1) + g(n + 4 * |pairs|) + ['}']
  }

  predicate Filled(objs: seq<seq<(string, string)>>) {
    forall i :: 0 <= i < |objs| ==> objs[i] != []
  }

  function ItemsLaid(objs: seq<seq<(string, string)>>, g: nat -> string, n: nat): string
    requires objs != [] && Filled(objs)
    decreases objs
  {
    var m := n + 4 * |objs[0]|;
    if |objs| == 1 then ObjectLaid(objs[0], g, n)
    else ObjectLaid(objs[0], g, n) + g(m + 1) + [','] + ItemsLaid(objs[1..], g, m + 2)
  }

  /** The whole text. */
  function ListLaid(objs: seq<seq<(string, string)>>, g: nat -> string, last: string, end: string): string
    requires Filled(objs)
  {
    g(0) + ['['] + (if objs == [] then [] else ItemsLaid(objs, g, 1)) + last + [']'] + end
  }

  // ----- reading them ------------------------------------------------------------------------

  lemma ReadStringLaid(ws: string, v: string, rest: string)
    requires Blank(ws) && Plain(v)
    ensures ReadString(ws + Quoted(v) + rest) == Some((v, rest))
  {
    hide Blank, Plain;
    var t := v + "\"" + rest;
    assert ws + Quoted(v) + rest == ws + ['"'] + t;
    BlanksSkipped(ws, '"', t);
    StringRoundTripIff(v, rest);
  }

  lemma ReadMemberLaid(k: string, v: string, g: nat -> string, n: nat, rest: string)
    requires Plain(k) && Plain(v) && forall i :: Blank(g(i))
    ensures ReadMember(MemberLaid(k, v, g, n) + rest) == Some((k, v, rest))
  {
    hide Blank, Plain, ReadString, Quoted, Expect;
    var u := g(n + 2) + Quoted(v) + rest;
    var t := g(n + 1) + [':'] + u;
    assert MemberLaid(k, v, g, n) + rest == g(n) + Quoted(k) + t;
    ReadStringLaid(g(n), k, t);
    BlanksSkipped(g(n + 1), ':', u);
    ReadStringLaid(g(n + 2), v, rest);
  }

  lemma {:induction false} ReadMembersLaid(pairs: seq<(string, string)>, g: nat -> string, n: nat, rest: string,
                                           acc: map<string, string>)
    requires pairs != [] && PlainPairs(pairs) && forall i :: Blank(g(i))
    ensures ReadMembers(MembersLaid(pairs, g, n) + g(n + 4 * |pairs| - 1) + ['}'] + rest, acc)
         == Some((MapOf(acc, pairs), rest))
    decreases pairs
  {
    hide Blank, ReadMember, MemberLaid, Expect;
    var (k, v) := pairs[0];
    var s := MembersLaid(pairs, g, n) + g(n + 4 * |pairs| - 1) + ['}'] + rest;
    if |pairs| == 1 {
      var t := g(n + 3) + ['}'] + rest;
      assert s == MemberLaid(k, v, g, n) + t;
      ReadMemberLaid(k, v, g, n, t);
      BlanksSkipped(g(n + 3), '}', rest);
      assert pairs[1..] == [];
    } else {
      var u := MembersLaid(pairs[1..], g, n + 4) + g(n + 4 * |pairs| - 1) + ['}'] + rest;
      var t := g(n + 3) + [','] + u;
      assert s == MemberLaid(k, v, g, n) + t;
      ReadMemberLaid(k, v, g, n, t);
      BlanksSkipped(g(n + 3), ',', u);
      assert (n + 4) + 4 * |pairs[1..]| - 1 == n + 4 * |pairs| - 1;
      ReadMembersLaid(pairs[1..], g, n + 4, rest, acc[k := v]);
    }
  }

  lemma ReadObjectLaid(pairs: seq<(string, string)>, g: nat -> string, n: nat, rest: string)
    requires pairs != [] && PlainPairs(pairs) && forall i :: Blank(g(i))
    ensures ReadObject(ObjectLaid(pairs, g, n) + rest) == Some((MapOf(map[], pairs), rest))
  {
    hide Blank, ReadMembers, MembersLaid, Expect, MapOf;
    var t := MembersLaid(pairs, g, n + 1) + g(n + 4 * |pairs|) + ['}'] + rest;
    assert ObjectLaid(pairs, g, n) + rest == g(n) + ['{'] + t;
    BlanksSkipped(g(n), '{', t);
    MembersStart(pairs, g, n + 1, g(n + 4 * |pairs|) + ['}'] + rest);
    assert MembersLaid(pairs, g, n + 1) + (g(n + 4 * |pairs|) + ['}'] + rest) == t;
    assert n + 1 + 4 * |pairs| - 1 == n + 4 * |pairs|;
    ReadMembersLaid(pairs, g, n + 1, rest, map[]);
  }

  lemma MembersStart(pairs: seq<(string, string)>, g: nat -> string, n: nat, rest: string)
    requires pairs != [] && forall i :: Blank(g(i))
    ensures Expect(MembersLaid(pairs, g, n) + rest, '}') == None
  {
    hide Blank, Expect;
    var s := MembersLaid(pairs, g, n) + rest;
    var t := s[|g(n)| + 1..];
    assert s == g(n) + ['"'] + t;
    BlanksSkipped(g(n), '"', t);
  }

  predicate AllPlain(objs: seq<seq<(string, string)>>) {
    forall i :: 0 <= i < |objs| ==> PlainPairs(objs[i])
  }

  function Maps(objs: seq<seq<(string, string)>>): (ms: seq<map<string, string>>)
    ensures |ms| == |objs| && forall i :: 0 <= i < |ms| ==> ms[i] == MapOf(map[], objs[i])
  {
    seq(|objs|, i requires 0 <= i < |objs| => MapOf(map[], objs[i]))
  }

  lemma {:induction false} ReadItemsLaid(objs: seq<seq<(string, string)>>, g: nat -> string, n: nat,
                                         last: string, rest: string)
    requires objs != [] && Filled(objs) && AllPlain(objs) && Blank(last) && forall i :: Blank(g(i))
    ensures ReadItems(ItemsLaid(objs, g, n) + last + [']'] + rest) == Some((Maps(objs), rest))
    decreases objs
  {
    hide Blank, ReadObject, ObjectLaid, Expect, MapOf, PlainPairs;
    var s := ItemsLaid(objs, g, n) + last + [']'] + rest;
    if |objs| == 1 {
      var t := last + [']'] + rest;
      assert s == ObjectLaid(objs[0], g, n) + t;
      ReadObjectLaid(objs[0], g, n, t);
      BlanksSkipped(last, ']', rest);
      assert Maps(objs) == [MapOf(map[], objs[0])];
    } else {
      var m := n + 4 * |objs[0]|;
      var u := ItemsLaid(objs[1..], g, m + 2) + last + [']'] + rest;
      var t := g(m + 1) + [','] + u;
      assert s == ObjectLaid(objs[0], g, n) + t;
      ReadObjectLaid(objs[0], g, n, t);
      BlanksSkipped(g(m + 1), ',', u);
      ReadItemsLaid(objs[1..], g, m + 2, last, rest);
      assert Maps(objs) == [MapOf(map[], objs[0])] + Maps(objs[1..]);
    }
  }

  lemma ItemsLaidStart(objs: seq<seq<(string, string)>>, g: nat -> string, n: nat, rest: string)
    requires objs != [] && Filled(objs) && forall i :: Blank(g(i))
    ensures Expect(ItemsLaid(objs, g, n) + rest, ']') == None
  {
    hide Blank, Expect, MembersLaid;
    var s := ItemsLaid(objs, g, n) + rest;
    var t := s[|g(n)| + 1..];
    assert s == g(n) + ['{'] + t;
    BlanksSkipped(g(n), '{', t);
  }

  /** Whatever the layout, and in whatever order the members come, the modes are read that the members name. */
  lemma LayoutIsFree(objs: seq<seq<(string, string)>>, g: nat -> string, last: string, end: string)
    requires Filled(objs) && AllPlain(objs) && Blank(last) && Blank(end) && forall i :: Blank(g(i))
    ensures ReadList(ListLaid(objs, g, last, end)) == Some(AllFromJson(Maps(objs)))
  {
    hide Blank, ReadItems, ItemsLaid, Expect, FromJson, PlainPairs;
    var items := if objs == [] then [] else ItemsLaid(objs, g, 1);
    var t := items + last + [']'] + end;
    assert ListLaid(objs, g, last, end) == g(0) + ['['] + t;
    BlanksSkipped(g(0), '[', t);
    OnlyBlanks(end);
    if objs == [] {
      assert t == last + [']'] + end;
      BlanksSkipped(last, ']', end);
      assert Maps(objs) == [];
    } else {
      ItemsLaidStart(objs, g, 1, last + [']'] + end);
      assert ItemsLaid(objs, g, 1) + (last + [']'] + end) == t;
      ReadItemsLaid(objs, g, 1, last, end);
    }
  }

  // ----- what is taken from an object --------------------------------------------------------

  /** Each field is taken from the member with its name, and from no other. */
  lemma FieldsAreRead(m: map<string, string>)
    ensures var d := FromJson(m);
            && d.dataType == (if "dataType" in m then m["dataType"] else "")
            && d.imageDir == (if "imageDir" in m then m["imageDir"] else "")
            && d.modeName == (if "modeName" in m then m["modeName"] else "")
            && d.temperature == (if "temperature" in m then m["temperature"] else "")
            && d.dataPos == (if "dataPos" in m then ToInt32(Atoll(m["dataPos"])) else 0)
            && d.chuShuiLiang == (if "chuShuiLiang" in m then ToInt32(Atoll(m["chuShuiLiang"])) else 0)
            && d.canDelete == (if "canDelete" in m then ToInt32(Atoll(m["canDelete"])) else 0)
  {
    hide ToInt32, Atoll;
  }

  /** The printed mode names each of its fields rightly, and nothing else. */
  lemma FieldsAreNamed(m: ModeData, rest: string)
    requires Storable(m)
    ensures var r := ReadObject(ToString(m) + rest);
            && r.Some? && r.value.1 == rest
            && r.value.0 == map["dataPos" := IntText(m.dataPos), "chuShuiLiang" := IntText(m.chuShuiLiang),
                                "canDelete" := IntText(m.canDelete), "dataType" := m.dataType,
                                "imageDir" := m.imageDir, "modeName" := m.modeName, "temperature" := m.temperature]
  {
    hide IntText, Storable, ReadObject, ToString, MapOf, PlainPairs;
    PairsRead(m);
    ObjectOfPairs(m, rest);
    SevenPairs(Pairs(m));
  }

  /** `atoll` passes over blanks, takes a sign, and stops at the first character that is no digit. */
  lemma AtollReads(ws: string, n: nat, rest: string)
    requires Blank(ws) && (rest == [] || !('0' <= rest[0] <= '9'))
    ensures Atoll(ws + Digits(n) + rest) == n
    ensures Atoll(ws + ['+'] + (Digits(n) + rest)) == n
    ensures Atoll(ws + ['-'] + (Digits(n) + rest)) == 0 - (n as int)
  {
    hide Digits, Blank, Atoll;
    DigitsRead(n);
    var d := Digits(n);
    NumberStops(d, rest, 0);
    assert IsDigit(d[0]);
    var t := d[1..] + rest;
    assert ws + d + rest == ws + [d[0]] + t && [d[0]] + t == d + rest;
    AtollAfterBlanks(ws, d[0], t);
    AtollAfterBlanks(ws, '+', d + rest);
    AtollAfterBlanks(ws, '-', d + rest);
  }

  lemma AtollAfterBlanks(ws: string, c: char, t: string)
    requires Blank(ws) && c != ' ' && c != '\t' && c != '\n' && c != '\r'
    ensures Atoll(ws + [c] + t) ==
              if c == '-' then 0 - (Number(t, 0) as int) else if c == '+' then Number(t, 0) else Number([c] + t, 0)
  {
    hide Blank, Number;
    BlanksSkipped(ws, c, t);
    assert ([c] + t)[1..] == t;
  }

  lemma {:induction false} NumberStops(d: string, rest: string, acc: nat)
    requires (forall i :: 0 <= i < |d| ==> IsDigit(d[i])) && (rest == [] || !IsDigit(rest[0]))
    ensures Number(d + rest, acc) == Number(d, acc)
    decreases d
  {
    if d == [] {
      assert d + rest == rest;
    } else {
      assert (d + rest)[1..] == d[1..] + rest;
      NumberStops(d[1..], rest, acc * 10 + DigitValue(d[0]));
    }
  }

  /** The conversion to `int` keeps the number modulo 2^32. */
  lemma ToInt32Wraps(n: int)
    ensures -0x8000_0000 <= ToInt32(n) < 0x8000_0000 && (n - ToInt32(n)) % 0x1_0000_0000 == 0
  {
  }
}
