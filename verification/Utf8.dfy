/** The text functions that walk over UTF-8 strings, stated over the code points the strings encode.

    A C string is the sequence of its bytes; the terminating NUL stands just behind the last of them. */
module Utf8 {
  import opened Bytes

  /** `wchar_t` of the target. */
  type wchar = bv32

  // ----- the encoding, section 3 of RFC 3629 -------------------------------------------------

  /** A character a C string can hold: a Unicode scalar value other than NUL. */
  predicate Scalar(c: wchar) {
    0 < c <= 0x10FFFF && !(0xD800 <= c <= 0xDFFF)
  }

  function Tail(c: wchar): byte { ((c & 0x3F) | 0x80) as bv8 }

  function Encode(c: wchar): (e: seq<byte>)
    requires Scalar(c)
    ensures 1 <= |e| <= 4
  {
    if c < 0x80 then [c as bv8]
    else if c < 0x800 then [((c >> 6) | 0xC0) as bv8, Tail(c)]
    else if c < 0x10000 then [((c >> 12) | 0xE0) as bv8, Tail(c >> 6), Tail(c)]
    else [((c >> 18) | 0xF0) as bv8, Tail(c >> 12), Tail(c >> 6), Tail(c)]
  }

  /** The ranges of section 3 of RFC 3629: which code points take how many bytes, and the marks that leading and
      following bytes carry. */
  lemma EncodedShape(c: wchar)
    requires Scalar(c)
    ensures |Encode(c)| == if c < 0x80 then 1 else if c < 0x800 then 2 else if c < 0x10000 then 3 else 4
    ensures var e := Encode(c);
            && (|e| == 1 ==> e[0] < 0x80)
            && (|e| == 2 ==> 0xC2 <= e[0] <= 0xDF)
            && (|e| == 3 ==> 0xE0 <= e[0] <= 0xEF)
            && (|e| == 4 ==> 0xF0 <= e[0] <= 0xF4)
            && forall i :: 1 <= i < |e| ==> 0x80 <= e[i] <= 0xBF
  {
    hide Tail;
    TailShape(c);
    TailShape(c >> 6);
    TailShape(c >> 12);
    LeadShape(c);
  }

  lemma TailShape(c: wchar)
    ensures 0x80 <= Tail(c) <= 0xBF
  {
  }

  lemma LeadShape(c: wchar)
    ensures 0x80 <= c < 0x800 ==> 0xC2 <= ((c >> 6) | 0xC0) as bv8 <= 0xDF
    ensures 0x800 <= c < 0x10000 ==> 0xE0 <= ((c >> 12) | 0xE0) as bv8 <= 0xEF
    ensures 0x10000 <= c <= 0x10FFFF ==> 0xF0 <= ((c >> 18) | 0xF0) as bv8 <= 0xF4
  {
  }

  predicate Scalars(cs: seq<wchar>) {
    forall i :: 0 <= i < |cs| ==> Scalar(cs[i])
  }

  function EncodeAll(cs: seq<wchar>): seq<byte>
    requires Scalars(cs)
  {
    if cs == [] then [] else Encode(cs[0]) + EncodeAll(cs[1..])
  }

  // ----- what the programs read off a lead byte ----------------------------------------------

  /** The number of bytes that follow a lead byte. */
  function Following(b: byte): (n: nat)
    ensures n <= 3
  {
    if b & 0x80 == 0 then 0
    else if b & 0xE0 == 0xC0 then 1
    else if b & 0xF0 == 0xE0 then 2
    else if b & 0xF8 == 0xF0 then 3
    else 0
  }

  function LeadBits(b: byte): wchar {
    if b & 0x80 == 0 then b as bv32
    else if b & 0xE0 == 0xC0 then (b & 0x1F) as bv32
    else if b & 0xF0 == 0xE0 then (b & 0x0F) as bv32
    else if b & 0xF8 == 0xF0 then (b & 0x07) as bv32
    else 0
  }

  function Append(w: wchar, b: byte): wchar {
    (w << 6) | ((b & 0x3F) as bv32)
  }

  /** Appending the last six bits to the others gives the number back. */
  lemma AppendTail(c: wchar)
    ensures Append(c >> 6, Tail(c)) == c && Tail(c) != 0
  {
  }

  lemma ShiftTwice(c: wchar)
    ensures (c >> 6) >> 6 == c >> 12 && (c >> 12) >> 6 == c >> 18
  {
  }

  lemma LeadTwo(c: wchar)
    requires c < 0x800
    ensures var b := ((c >> 6) | 0xC0) as bv8; b != 0 && b & 0x80 != 0 && Following(b) == 1 && LeadBits(b) == c >> 6
  {
  }

  lemma LeadThree(c: wchar)
    requires c < 0x10000
    ensures var b := ((c >> 12) | 0xE0) as bv8; b != 0 && b & 0x80 != 0 && Following(b) == 2 && LeadBits(b) == c >> 12
  {
  }

  lemma LeadFour(c: wchar)
    requires c <= 0x10FFFF
    ensures var b := ((c >> 18) | 0xF0) as bv8; b != 0 && b & 0x80 != 0 && Following(b) == 3 && LeadBits(b) == c >> 18
  {
  }

  lemma LeadOne(c: wchar)
    requires 0 < c < 0x80
    ensures var b := c as bv8; b != 0 && b & 0x80 == 0 && Following(b) == 0 && LeadBits(b) == c
  {
  }

  /** What the loops compute from the bytes of one character. */
  function Decode(e: seq<byte>): wchar
    requires |e| > 0
  {
    DecodeFrom(LeadBits(e[0]), e[1..])
  }

  function DecodeFrom(w: wchar, tail: seq<byte>): wchar
    decreases tail
  {
    if tail == [] then w else DecodeFrom(Append(w, tail[0]), tail[1..])
  }

  /** The bytes of a character: none is NUL, the first one tells how many follow and whether the character is
      beyond ASCII, and together they give the character back. */
  lemma EncodeDecodes(c: wchar)
    requires Scalar(c)
    ensures var e := Encode(c);
            && (forall i :: 0 <= i < |e| ==> e[i] != 0)
            && |e| == Following(e[0]) + 1
            && (e[0] & 0x80 == 0 <==> c < 0x80)
            && Decode(e) == c
  {
    hide Append, Tail, LeadBits, Following;
    var e := Encode(c);
    AppendTail(c);
    AppendTail(c >> 6);
    AppendTail(c >> 12);
    ShiftTwice(c);
    if c < 0x80 {
      LeadOne(c);
      assert e[1..] == [];
    } else if c < 0x800 {
      LeadTwo(c);
      TailsOne(LeadBits(e[0]), e[1]);
      assert e[1..] == [e[1]];
    } else if c < 0x10000 {
      LeadThree(c);
      TailsTwo(LeadBits(e[0]), e[1], e[2]);
      assert e[1..] == [e[1], e[2]];
    } else {
      LeadFour(c);
      TailsThree(LeadBits(e[0]), e[1], e[2], e[3]);
      assert e[1..] == [e[1], e[2], e[3]];
    }
  }

  lemma TailsOne(w: wchar, a: byte)
    ensures DecodeFrom(w, [a]) == Append(w, a)
  {
    hide Append;
    assert [a][1..] == [];
    assert DecodeFrom(Append(w, a), []) == Append(w, a);
  }

  lemma TailsTwo(w: wchar, a: byte, b: byte)
    ensures DecodeFrom(w, [a, b]) == Append(Append(w, a), b)
  {
    hide Append;
    assert [a, b][1..] == [b];
    TailsOne(Append(w, a), b);
  }

  lemma TailsThree(w: wchar, a: byte, b: byte, c: byte)
    ensures DecodeFrom(w, [a, b, c]) == Append(Append(Append(w, a), b), c)
  {
    hide Append;
    assert [a, b, c][1..] == [b, c];
    TailsTwo(Append(w, a), b, c);
  }

  // ----- walking over a string ---------------------------------------------------------------

  lemma {:induction false} EncodeAllAppend(a: seq<wchar>, b: seq<wchar>)
    requires Scalars(a) && Scalars(b)
    ensures EncodeAll(a + b) == EncodeAll(a) + EncodeAll(b)
    decreases a
  {
    hide Encode, Scalar;
    if a == [] {
      assert a + b == b;
    } else {
      assert (a + b)[0] == a[0] && (a + b)[1..] == a[1..] + b;
      EncodeAllAppend(a[1..], b);
    }
  }

  /** `pos` is where the character number `j` of the string starts, or its end. */
  predicate Stands(cs: seq<wchar>, buffer: seq<byte>, pos: int, j: int)
    requires Scalars(cs)
  {
    && 0 <= j <= |cs| && 0 <= pos <= |buffer|
    && buffer[..pos] == EncodeAll(cs[..j]) && buffer[pos..] == EncodeAll(cs[j..])
  }

  /** What `*pos` reads: a byte of the string, or its terminator. */
  function At(buffer: seq<byte>, pos: int): byte
    requires 0 <= pos <= |buffer|
  {
    if pos < |buffer| then buffer[pos] else 0
  }

  lemma Begin(cs: seq<wchar>)
    requires Scalars(cs)
    ensures Stands(cs, EncodeAll(cs), 0, 0)
  {
    assert cs[0..] == cs;
  }

  lemma HereBytes(cs: seq<wchar>, buffer: seq<byte>, pos: int, j: int)
    requires Scalars(cs) && Stands(cs, buffer, pos, j) && j < |cs|
    ensures var e := Encode(cs[j]);
            && pos + |e| <= |buffer| && buffer[pos..pos + |e|] == e
            && (forall i :: 0 <= i < |e| ==> buffer[pos + i] == e[i])
            && Stands(cs, buffer, pos + |e|, j + 1)
  {
    hide Encode, Scalar;
    var e := Encode(cs[j]);
    var rest := EncodeAll(cs[j + 1..]);
    assert cs[j..][0] == cs[j] && cs[j..][1..] == cs[j + 1..];
    assert cs[..j + 1] == cs[..j] + [cs[j]];
    EncodeAllAppend(cs[..j], [cs[j]]);
    One(cs[j]);
    Cut(buffer, pos, e, rest);
  }

  lemma Cut(buffer: seq<byte>, pos: nat, e: seq<byte>, rest: seq<byte>)
    requires pos <= |buffer| && buffer[pos..] == e + rest
    ensures pos + |e| <= |buffer| && buffer[pos..pos + |e|] == e && buffer[pos + |e|..] == rest
    ensures buffer[..pos + |e|] == buffer[..pos] + e
    ensures forall i :: 0 <= i < |e| ==> buffer[pos + i] == e[i]
  {
    assert buffer == buffer[..pos] + (e + rest);
  }

  /** The character at `pos`, and where the next one starts. */
  lemma Here(cs: seq<wchar>, buffer: seq<byte>, pos: int, j: int)
    requires Scalars(cs) && Stands(cs, buffer, pos, j)
    ensures At(buffer, pos) == 0 <==> j == |cs|
    ensures j < |cs| ==>
              && var e := Encode(cs[j]);
              && pos + |e| <= |buffer| && buffer[pos..pos + |e|] == e
              && (forall i :: 0 <= i < |e| ==> buffer[pos + i] == e[i] != 0)
              && |e| == Following(buffer[pos]) + 1
              && (buffer[pos] & 0x80 == 0 <==> cs[j] < 0x80) && (cs[j] < 0x80 ==> |e| == 1)
              && Decode(e) == cs[j]
              && Stands(cs, buffer, pos + |e|, j + 1)
  {
    if j < |cs| {
      AsciiIsOneByte(cs[j]);
      hide Encode, Decode, Following, Scalar, Stands;
      EncodeDecodes(cs[j]);
      HereBytes(cs, buffer, pos, j);
    } else {
      assert cs[j..] == [];
    }
  }

  lemma AsciiIsOneByte(c: wchar)
    requires Scalar(c)
    ensures c < 0x80 ==> |Encode(c)| == 1
  {
  }

  lemma One(c: wchar)
    requires Scalar(c)
    ensures EncodeAll([c]) == Encode(c)
  {
    assert [c][1..] == [];
  }

  method WordLen(buffer: seq<byte>, ghost cs: seq<wchar>) returns (n: nat, wstr: seq<wchar>)
    requires Scalars(cs) && buffer == EncodeAll(cs)
    ensures wstr == cs && n == |cs|
  {
    hide Encode, EncodeAll, Scalar, Stands, Append, LeadBits, Following;
    var pos := 0;
    wstr := [];
    ghost var j := 0;
    Begin(cs);
    Here(cs, buffer, pos, j);
    InRange(cs, buffer, pos, j);
    while At(buffer, pos) != 0
      invariant 0 <= pos <= |buffer| && 0 <= j <= |cs| && Stands(cs, buffer, pos, j) && wstr == cs[..j]
      invariant At(buffer, pos) == 0 <==> j == |cs|
      decreases |cs| - j
    {
      Here(cs, buffer, pos, j);
      ghost var e, start := Encode(cs[j]), pos;
      var numBytes := Following(At(buffer, pos));
      var wch := LeadBits(At(buffer, pos));
      assert e[0..][1..] == e[1..];
      for i := 0 to numBytes
        invariant pos == start + i && DecodeFrom(wch, e[i + 1..]) == cs[j]
      {
        assert e[i + 1..][0] == e[i + 1] && e[i + 1..][1..] == e[i + 2..];
        pos := pos + 1;
        wch := Append(wch, At(buffer, pos));
      }
      wstr := wstr + [wch];
      pos := pos + 1;
      j := j + 1;
      InRange(cs, buffer, pos, j);
      Here(cs, buffer, pos, j);
    }
    n := |wstr|;
  }

  lemma InRange(cs: seq<wchar>, buffer: seq<byte>, pos: int, j: int)
    requires Scalars(cs) && Stands(cs, buffer, pos, j)
    ensures 0 <= pos <= |buffer| && 0 <= j <= |cs|
  {
  }

  /** The number of characters beyond ASCII. */
  function Wide(cs: seq<wchar>): nat {
    if cs == [] then 0 else Wide(cs[..|cs| - 1]) + if Ascii(cs[|cs| - 1]) then 0 else 1
  }

  predicate Ascii(c: wchar) { c < 0x80 }

  lemma {:induction false} WideBound(cs: seq<wchar>, k: nat)
    requires k <= |cs|
    ensures Wide(cs[..k]) <= Wide(cs) <= |cs|
    decreases |cs|
  {
    if k < |cs| {
      WideBound(cs[..|cs| - 1], k);
      assert cs[..|cs| - 1][..k] == cs[..k];
    } else {
      assert cs[..k] == cs;
      if cs != [] { WideBound(cs[..|cs| - 1], |cs| - 1); }
    }
  }

  /** It is the number of places that hold a code point from 0x80 on. */
  lemma WideCounts(cs: seq<wchar>)
    ensures Wide(cs) == |set i | 0 <= i < |cs| && cs[i] >= 0x80|
  {
    WidePlaces(cs);
    assert (set i | 0 <= i < |cs| && cs[i] >= 0x80) == set i | 0 <= i < |cs| && !Ascii(cs[i]);
  }

  lemma {:induction false} WidePlaces(cs: seq<wchar>)
    ensures Wide(cs) == |set i | 0 <= i < |cs| && !Ascii(cs[i])|
    decreases |cs|
  {
    hide Ascii;
    if cs != [] {
      var n := |cs| - 1;
      WidePlaces(cs[..n]);
      var before, now := set i | 0 <= i < n && !Ascii(cs[..n][i]), set i | 0 <= i < |cs| && !Ascii(cs[i]);
      assert now == before + if Ascii(cs[n]) then {} else {n};
      assert n !in before;
    }
  }

  lemma WideNext(cs: seq<wchar>, k: nat)
    requires k < |cs|
    ensures Wide(cs[..k + 1]) == Wide(cs[..k]) + if cs[k] < 0x80 then 0 else 1
  {
    assert cs[..k + 1][..k] == cs[..k];
  }

  method GetChineseWordLen(buffer: seq<byte>, ghost cs: seq<wchar>) returns (chineseWord: nat)
    requires Scalars(cs) && buffer == EncodeAll(cs)
    ensures chineseWord == Wide(cs)
  {
    hide Wide, Encode, EncodeAll, Scalar, Stands, Following, Decode;
    var pos := 0;
    chineseWord := 0;
    NoneWide();
    ghost var j := 0;
    Begin(cs);
    InRange(cs, buffer, pos, j);
    Here(cs, buffer, pos, j);
    while At(buffer, pos) != 0
      invariant 0 <= pos <= |buffer| && 0 <= j <= |cs| && Stands(cs, buffer, pos, j) && chineseWord == Wide(cs[..j])
      invariant At(buffer, pos) == 0 <==> j == |cs|
      decreases |cs| - j
    {
      Here(cs, buffer, pos, j);
      if At(buffer, pos) & 0x80 != 0 {
        pos := pos + Following(At(buffer, pos));
        chineseWord := chineseWord + 1;
      }
      pos := pos + 1;
      WideNext(cs, j);
      j := j + 1;
      InRange(cs, buffer, pos, j);
      Here(cs, buffer, pos, j);
    }
    assert cs[..j] == cs;
  }

  lemma NoneWide()
    ensures Wide([]) == 0
  {
  }

  function Min(a: int, b: int): int { if a < b then a else b }

  /** The first `count` characters, or all if there are fewer; none for a negative count. */
  method GetWord(buffer: seq<byte>, count: int, ghost cs: seq<wchar>) returns (words: seq<byte>)
    requires Scalars(cs) && buffer == EncodeAll(cs)
    ensures words == EncodeAll(cs[..if count < 0 then 0 else Min(count, |cs|)])
  {
    hide Encode, EncodeAll, Scalar, Stands, Following, Decode;
    words := [];
    var wordCount := 0;
    var pos := 0;
    ghost var j := 0;
    Begin(cs);
    InRange(cs, buffer, pos, j);
    Here(cs, buffer, pos, j);
    while At(buffer, pos) != 0 && wordCount < count
      invariant 0 <= pos <= |buffer| && 0 <= j <= |cs| && Stands(cs, buffer, pos, j) && words == buffer[..pos]
      invariant wordCount == j && (j == 0 || j <= count)
      invariant At(buffer, pos) == 0 <==> j == |cs|
      decreases |cs| - j
    {
      Here(cs, buffer, pos, j);
      ghost var start := pos;
      if At(buffer, pos) & 0x80 != 0 {
        var numBytes := Following(At(buffer, pos));
        for i := 0 to numBytes + 1
          invariant pos == start + i && words == buffer[..pos]
        {
          words := words + [At(buffer, pos)];
          pos := pos + 1;
        }
      } else {
        words := words + [At(buffer, pos)];
        pos := pos + 1;
      }
      wordCount := wordCount + 1;
      j := j + 1;
      InRange(cs, buffer, pos, j);
      Here(cs, buffer, pos, j);
    }
    PrefixHere(cs, buffer, pos, j);
  }

  lemma PrefixHere(cs: seq<wchar>, buffer: seq<byte>, pos: int, j: int)
    requires Scalars(cs) && Stands(cs, buffer, pos, j)
    ensures 0 <= pos <= |buffer| && 0 <= j <= |cs| && buffer[..pos] == EncodeAll(cs[..j])
  {
  }

  /** All characters but the last; nothing of the empty string. */
  method DecLastWord(buffer: seq<byte>, ghost cs: seq<wchar>) returns (words: seq<byte>)
    requires Scalars(cs) && buffer == EncodeAll(cs)
    ensures words == EncodeAll(cs[..if cs == [] then 0 else |cs| - 1])
  {
    hide Encode, EncodeAll, Scalar, Stands, Following, Decode;
    words := [];
    var pos := 0;
    ghost var j := 0;
    Begin(cs);
    InRange(cs, buffer, pos, j);
    Here(cs, buffer, pos, j);
    while At(buffer, pos) != 0
      invariant 0 <= pos <= |buffer| && 0 <= j <= |cs| && Stands(cs, buffer, pos, j) && words == buffer[..pos]
      invariant At(buffer, pos) == 0 <==> j == |cs|
      invariant cs != [] ==> j < |cs|
      decreases |cs| - j
    {
      Here(cs, buffer, pos, j);
      ghost var start := pos;
      var numBytes := if At(buffer, pos) & 0x80 != 0 then Following(At(buffer, pos)) else 0;
      InRange(cs, buffer, pos + numBytes + 1, j + 1);
      Here(cs, buffer, pos + numBytes + 1, j + 1);
      if At(buffer, pos + numBytes + 1) == 0 {
        break;
      }
      for i := 0 to numBytes + 1
        invariant pos == start + i && words == buffer[..pos]
      {
        words := words + [At(buffer, pos)];
        pos := pos + 1;
      }
      j := j + 1;
    }
    PrefixHere(cs, buffer, pos, j);
  }

  /** `count` as the comparison with a `size_t` takes it. */
  function Unsigned(count: int): int {
    if count < 0 then count + 0x1_0000_0000_0000_0000 else count
  }

  /** The width of a text in which every character beyond ASCII counts twice. */
  function DoubleWidth(cs: seq<wchar>): nat { |cs| + Wide(cs) }

  /** Every character beyond ASCII counts two, every other one. */
  lemma WidthAdds(cs: seq<wchar>, c: wchar)
    ensures DoubleWidth([]) == 0
    ensures DoubleWidth(cs + [c]) == DoubleWidth(cs) + if c < 0x80 then 1 else 2
  {
    assert (cs + [c])[..|cs|] == cs;
  }

  lemma {:induction false} WidthGrows(cs: seq<wchar>, k: nat, m: nat)
    requires k <= m <= |cs|
    ensures DoubleWidth(cs[..k]) + (m - k) <= DoubleWidth(cs[..m]) <= 2 * m
  {
    WideBound(cs[..m], k);
    assert cs[..m][..k] == cs[..k];
  }

  /** The number of characters of the longest prefix that fits into `limit`: it fits unless it is empty, and every
      longer one is too wide. */
  function Fitting(cs: seq<wchar>, limit: int): (k: nat)
    ensures k <= |cs|
    ensures k > 0 ==> DoubleWidth(cs[..k]) <= limit
    ensures forall m :: k < m <= |cs| ==> DoubleWidth(cs[..m]) > limit
    decreases |cs|
  {
    assert cs[..|cs|] == cs;
    if cs == [] || DoubleWidth(cs) <= limit then |cs|
    else
      var front := cs[..|cs| - 1];
      assert forall m :: 0 <= m < |cs| ==> front[..m] == cs[..m];
      Fitting(front, limit)
  }

  /** A prefix that fits, and with one more character does not, is the longest that fits. */
  lemma NextDecides(cs: seq<wchar>, k: nat, limit: int)
    requires k <= |cs|
    requires k > 0 ==> DoubleWidth(cs[..k]) <= limit
    requires k < |cs| ==> DoubleWidth(cs[..k + 1]) > limit
    ensures k == Fitting(cs, limit)
  {
    var f := Fitting(cs, limit);
    if k < f { WidthGrows(cs, k + 1, f); }
  }

  /** The longest prefix of whole characters whose double width does not exceed `count`. */
  method GetWordChineseDouble(buffer: seq<byte>, count: int, ghost cs: seq<wchar>) returns (words: seq<byte>)
    requires Scalars(cs) && buffer == EncodeAll(cs)
    ensures words == EncodeAll(cs[..Fitting(cs, Unsigned(count))])
  {
    hide Fitting, Wide, Encode, EncodeAll, Scalar, Stands, Following, Decode;
    NoneWide();
    var pos := 0;
    var chineseWord, wordPos, size := 0, 0, 0;
    ghost var k := 0;
    Begin(cs);
    InRange(cs, buffer, pos, k);
    Here(cs, buffer, pos, k);
    while At(buffer, pos) != 0
      invariant 0 <= pos <= |buffer| && 0 <= k <= |cs| && Stands(cs, buffer, pos, k)
      invariant wordPos == pos && size == k && chineseWord == Wide(cs[..k])
      invariant k > 0 ==> DoubleWidth(cs[..k]) <= Unsigned(count)
      invariant At(buffer, pos) == 0 <==> k == |cs|
      decreases |cs| - k
    {
      Here(cs, buffer, pos, k);
      WideNext(cs, k);
      if At(buffer, pos) & 0x80 != 0 {
        var numBytes := Following(At(buffer, pos));
        pos := pos + numBytes;
        if size + chineseWord + 2 > Unsigned(count) { break; }
        size := size + 1;
        chineseWord := chineseWord + 1;
        wordPos := wordPos + numBytes + 1;
      } else {
        if size + chineseWord + 1 > Unsigned(count) { break; }
        size := size + 1;
        wordPos := wordPos + 1;
      }
      pos := pos + 1;
      k := k + 1;
      InRange(cs, buffer, pos, k);
      Here(cs, buffer, pos, k);
    }
    PrefixHere(cs, buffer, wordPos, k);
    NextDecides(cs, k, Unsigned(count));
    words := buffer[..wordPos];
  }

  // ----- the laws ----------------------------------------------------------------------------

  /** For a negative count nothing is ever cut off: the comparison takes it for a huge one. */
  lemma NegativeCountKeepsAll(cs: seq<wchar>, count: int)
    requires -0x8000_0000 <= count < 0 && |cs| < 0x4000_0000_0000_0000
    ensures Fitting(cs, Unsigned(count)) == |cs|
  {
    WidthGrows(cs, 0, |cs|);
    assert cs[..|cs|] == cs;
    NextDecides(cs, |cs|, Unsigned(count));
  }

  /** The comparison means what it says if and only if the count is not negative or there is nothing to cut off. */
  lemma CountIsMeantIff(cs: seq<wchar>, count: int)
    requires -0x8000_0000 <= count < 0x8000_0000 && |cs| < 0x4000_0000_0000_0000
    ensures Fitting(cs, Unsigned(count)) == Fitting(cs, count) <==> count >= 0 || cs == []
  {
    if count < 0 { NegativeCountKeepsAll(cs, count); }
  }

  lemma {:induction false} EncodeInjective(a: seq<wchar>, b: seq<wchar>)
    requires Scalars(a) && Scalars(b) && EncodeAll(a) == EncodeAll(b)
    ensures a == b
    decreases |a|
  {
    hide Encode, EncodeAll, Scalar, Stands, Following, Decode;
    var s := EncodeAll(a);
    Begin(a);
    Begin(b);
    Here(a, s, 0, 0);
    Here(b, s, 0, 0);
    if a != [] && b != [] {
      var e, f := Encode(a[0]), Encode(b[0]);
      assert |e| == |f| && e == s[0..|e|] == f;
      assert a == [a[0]] + a[1..] && b == [b[0]] + b[1..];
      RestHere(a, s, |e|, 1);
      RestHere(b, s, |e|, 1);
      EncodeInjective(a[1..], b[1..]);
    } else {
      assert |a| == 0 && |b| == 0;
    }
  }

  lemma RestHere(cs: seq<wchar>, buffer: seq<byte>, pos: int, j: int)
    requires Scalars(cs) && Stands(cs, buffer, pos, j)
    ensures 0 <= pos <= |buffer| && 0 <= j <= |cs| && buffer[pos..] == EncodeAll(cs[j..])
  {
  }

  /** `decLastWord(s)` is `getWord(s, wordLen(s) - 1)` for every nonempty string. */
  method DecLastIsGetWord(buffer: seq<byte>, ghost cs: seq<wchar>) returns (one: seq<byte>, two: seq<byte>)
    requires Scalars(cs) && buffer == EncodeAll(cs)
    ensures one == two
  {
    one := DecLastWord(buffer, cs);
    var n, wstr := WordLen(buffer, cs);
    var count: int := n as int - 1;
    two := GetWord(buffer, count, cs);
  }
}
