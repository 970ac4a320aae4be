/** `replace_all`: every occurrence of one string replaced by another, from left to right, never looking at what was
    put in. */
module ReplaceAll {

  predicate OccursAt(s: string, w: string, i: int) {
    0 <= i && i + |w| <= |s| && s[i..i + |w|] == w
  }

  /** The first occurrence at `from` or later, or -1: `std::string::find`. */
  function Find(s: string, w: string, from: nat): (p: int)
    requires w != []
    ensures p == -1 || (from <= p && OccursAt(s, w, p))
    ensures forall i :: from <= i && (p == -1 || i < p) ==> !OccursAt(s, w, i)
    decreases |s| - from
  {
    if from + |w| > |s| then -1
    else if OccursAt(s, w, from) then from
    else Find(s, w, from + 1)
  }

  /** The text between the occurrences: `s` is the pieces joined by `w`. */
  function Split(s: string, w: string): (pieces: seq<string>)
    requires w != []
    ensures pieces != []
    decreases |s|
  {
    var p := Find(s, w, 0);
    if p < 0 then [s] else [s[..p]] + Split(s[p + |w|..], w)
  }

  function Join(pieces: seq<string>, w: string): string
    requires pieces != []
  {
    if |pieces| == 1 then pieces[0] else pieces[0] + w + Join(pieces[1..], w)
  }

  /** `src` is edited in place; the result is the string it ends up as. */
  method ReplaceAll(source: string, old_value: string, new_value: string) returns (src: string)
    requires old_value != []
    ensures src == Join(Split(source, old_value), new_value)
  {
    hide Split, Join;
    src := source;
    var pos: nat := 0;
    ghost var rest := source;
    while true
      invariant pos <= |src| && src[pos..] == rest
      invariant src[..pos] + Join(Split(rest, old_value), new_value) == Join(Split(source, old_value), new_value)
      decreases |rest|
    {
      FindShift(src, old_value, pos, rest);
      var found := Find(src, old_value, pos);
      if found >= 0 {
        Edited(src, old_value, new_value, pos, found);
        SplitStep(rest, old_value, found - pos);
        ghost var done, q, tail := src[..pos], rest[..found - pos], rest[found - pos + |old_value|..];
        JoinCons(q, Split(tail, old_value), new_value);
        Reassociated(done, q, new_value, Join(Split(tail, old_value), new_value));
        src := src[..found] + new_value + src[found + |old_value|..];
        pos := found + |new_value|;
        rest := tail;
      } else {
        LastPiece(rest, old_value, new_value);
        assert src == src[..pos] + rest;
        break;
      }
    }
  }

  /** Searching from `pos` on is searching the rest. */
  lemma {:induction false} FindShift(s: string, w: string, pos: nat, rest: string)
    requires w != [] && pos <= |s| && s[pos..] == rest
    ensures var p := Find(rest, w, 0);
            Find(s, w, pos) == if p < 0 then -1 else pos + p
  {
    forall i: nat ensures OccursAt(rest, w, i) <==> OccursAt(s, w, pos + i) {
      OccursShift(s, w, pos, i);
    }
    var p, q := Find(rest, w, 0), Find(s, w, pos);
    if q >= 0 { assert OccursAt(rest, w, q - pos); }
    if p >= 0 { assert OccursAt(s, w, pos + p); }
  }

  lemma OccursShift(s: string, w: string, pos: nat, i: nat)
    requires pos <= |s|
    ensures OccursAt(s[pos..], w, i) <==> OccursAt(s, w, pos + i)
  {
    if i + |w| <= |s| - pos { assert s[pos..][i..i + |w|] == s[pos + i..pos + i + |w|]; }
  }

  lemma SplitStep(s: string, w: string, p: nat)
    requires w != [] && Find(s, w, 0) == p
    ensures p + |w| <= |s| && Split(s, w) == [s[..p]] + Split(s[p + |w|..], w)
  {
  }

  lemma LastPiece(s: string, w: string, v: string)
    requires w != [] && Find(s, w, 0) < 0
    ensures Join(Split(s, w), v) == s
  {
  }

  /** Joining puts the string between the pieces, once each. */
  lemma JoinCons(q: string, more: seq<string>, v: string)
    requires more != []
    ensures Join([q] + more, v) == q + v + Join(more, v) && Join([q], v) == q
  {
    assert ([q] + more)[1..] == more;
  }

  lemma Edited(s: string, w: string, v: string, pos: nat, found: nat)
    requires pos <= found && found + |w| <= |s|
    ensures var t := s[..found] + v + s[found + |w|..];
            && t[found + |v|..] == s[pos..][found - pos + |w|..]
            && t[..found + |v|] == s[..pos] + s[pos..][..found - pos] + v
  {
    assert s[..found] == s[..pos] + s[pos..][..found - pos];
  }

  lemma Reassociated(a: string, q: string, v: string, j: string)
    ensures a + q + v + j == a + (q + v + j)
  {
  }

  // ----- what the result is ------------------------------------------------------------------

  /** The pieces are the text itself, cut at occurrences of `w`. */
  lemma {:induction false} SplitJoins(s: string, w: string)
    requires w != []
    ensures Join(Split(s, w), w) == s
    decreases |s|
  {
    var p := Find(s, w, 0);
    if p >= 0 {
      SplitJoins(s[p + |w|..], w);
      var more := Split(s[p + |w|..], w);
      assert ([s[..p]] + more)[1..] == more;
      assert s == s[..p] + w + s[p + |w|..];
    }
  }

  /** Every cut is the leftmost possible one: in a piece followed by `w` the first occurrence is the one behind the
      piece, and the last piece has none. */
  predicate Leftmost(pieces: seq<string>, w: string)
    requires w != []
  {
    && (forall i :: 0 <= i < |pieces| - 1 ==> Find(pieces[i] + w, w, 0) == |pieces[i]|)
    && (pieces != [] ==> Find(pieces[|pieces| - 1], w, 0) == -1)
  }

  lemma {:induction false} SplitIsLeftmost(s: string, w: string)
    requires w != []
    ensures Leftmost(Split(s, w), w)
    decreases |s|
  {
    var p := Find(s, w, 0);
    if p >= 0 {
      SplitIsLeftmost(s[p + |w|..], w);
      var head := s[..p] + w;
      assert head == s[..p + |w|];
      forall i | 0 <= i < p ensures !OccursAt(head, w, i) {
        assert !OccursAt(s, w, i);
        if i + |w| <= |head| { assert head[i..i + |w|] == s[i..i + |w|]; }
      }
      assert OccursAt(head, w, p);
    }
  }

  /** The first occurrence stays the first one, whatever follows. */
  lemma FirstPiece(q: string, w: string, tail: string)
    requires w != [] && Find(q + w, w, 0) == |q|
    ensures Find(q + w + tail, w, 0) == |q|
  {
    var s := q + w + tail;
    assert s[|q|..|q| + |w|] == w && OccursAt(s, w, |q|);
    forall i | 0 <= i < |q| ensures !OccursAt(s, w, i) {
      assert !OccursAt(q + w, w, i);
      if i + |w| <= |q + w| { assert (q + w)[i..i + |w|] == s[i..i + |w|]; }
    }
  }

  /** There is only one way to cut a text like that, so the two lemmas above say what `Split` is. */
  lemma {:induction false} LeftmostIsUnique(pieces: seq<string>, w: string)
    requires w != [] && pieces != [] && Leftmost(pieces, w)
    ensures Split(Join(pieces, w), w) == pieces
    decreases |pieces|
  {
    var s := Join(pieces, w);
    if |pieces| == 1 {
      assert Find(s, w, 0) == -1;
    } else {
      var q, more := pieces[0], pieces[1..];
      assert forall i :: 0 <= i < |more| ==> more[i] == pieces[i + 1];
      LeftmostIsUnique(more, w);
      var tail := Join(more, w);
      assert s == q + w + tail;
      FirstPiece(q, w, tail);
      assert s[..|q|] == q && s[|q| + |w|..] == tail;
      assert pieces == [q] + more;
    }
  }

  /** The result's length counts the replacements exactly. */
  lemma {:induction false} JoinLength(pieces: seq<string>, w: string, v: string)
    requires pieces != []
    ensures |Join(pieces, v)| == |Join(pieces, w)| + (|pieces| - 1) * (|v| - |w|)
    decreases |pieces|
  {
    if |pieces| > 1 {
      JoinLength(pieces[1..], w, v);
      var d, k := |v| - |w|, |pieces| - 1;
      assert k * d == (k - 1) * d + d;
    }
  }
}
