/** `CConfMgr`: the mode list, whose stored positions go with the order of the list, and its saved text. */
module ConfMgr {
  import opened Collections
  import opened ModeText

  // ----- the order ---------------------------------------------------------------------------

  /** The mode at index `i` says it is number `i + 1`. */
  predicate Agree(list: seq<ModeData>) {
    forall i :: 0 <= i < |list| ==> list[i].dataPos == i + 1
  }

  predicate Sorted(list: seq<ModeData>) {
    forall i, j :: 0 <= i < j < |list| ==> list[i].dataPos <= list[j].dataPos
  }

  function Insert(m: ModeData, list: seq<ModeData>): seq<ModeData> {
    if list == [] || m.dataPos < list[0].dataPos then [m] + list else [list[0]] + Insert(m, list[1..])
  }

  /** `std::sort` by `compareByPos`: some sorted arrangement of the same modes. */
  function SortByPos(list: seq<ModeData>): seq<ModeData> {
    if list == [] then [] else Insert(list[|list| - 1], SortByPos(list[..|list| - 1]))
  }

  lemma {:induction false} InsertKeeps(m: ModeData, list: seq<ModeData>)
    ensures multiset(Insert(m, list)) == multiset(list) + multiset{m}
    decreases list
  {
    if list != [] && !(m.dataPos < list[0].dataPos) {
      InsertKeeps(m, list[1..]);
      assert list == [list[0]] + list[1..];
    }
  }

  lemma {:induction false} InsertSorts(m: ModeData, list: seq<ModeData>)
    requires Sorted(list)
    ensures Sorted(Insert(m, list))
    decreases list
  {
    if list != [] && !(m.dataPos < list[0].dataPos) {
      var rest, more := list[1..], Insert(m, list[1..]);
      InsertSorts(m, rest);
      InsertKeeps(m, rest);
      LowerBound(list[0].dataPos, m, rest, more);
      SortedCons(list[0], more);
    }
  }

  lemma LowerBound(p: int, m: ModeData, rest: seq<ModeData>, more: seq<ModeData>)
    requires p <= m.dataPos && forall i :: 0 <= i < |rest| ==> p <= rest[i].dataPos
    requires multiset(more) == multiset(rest) + multiset{m}
    ensures forall i :: 0 <= i < |more| ==> p <= more[i].dataPos
  {
    forall i | 0 <= i < |more| ensures p <= more[i].dataPos {
      assert more[i] in multiset(more);
      if more[i] != m { assert more[i] in multiset(rest); }
    }
  }

  lemma SortedCons(x: ModeData, s: seq<ModeData>)
    requires Sorted(s) && forall i :: 0 <= i < |s| ==> x.dataPos <= s[i].dataPos
    ensures Sorted([x] + s)
  {
    var t := [x] + s;
    assert forall i :: 1 <= i < |t| ==> t[i] == s[i - 1];
  }

  lemma {:induction false} SortSorts(list: seq<ModeData>)
    ensures Sorted(SortByPos(list)) && multiset(SortByPos(list)) == multiset(list)
    decreases list
  {
    if list != [] {
      var n := |list| - 1;
      SortSorts(list[..n]);
      InsertSorts(list[n], SortByPos(list[..n]));
      InsertKeeps(list[n], SortByPos(list[..n]));
      assert list == list[..n] + [list[n]];
    }
  }

  /** A list whose positions agree with its order is the only sorted arrangement of its modes, so it does not matter
      which sorting the library uses. */
  lemma {:induction false} OnlyOneOrder(list: seq<ModeData>, other: seq<ModeData>)
    requires Agree(list) && Sorted(other) && multiset(other) == multiset(list)
    ensures other == list
    decreases |list|
  {
    assert |other| == |multiset(other)| == |list|;
    if list != [] {
      var n := |list| - 1;
      SameLast(list, other);
      SameBeforeLast(list, other);
      OnlyOneOrder(list[..n], other[..n]);
      assert list == list[..n] + [list[n]] && other == other[..n] + [other[n]];
    }
  }

  lemma SameLast(list: seq<ModeData>, other: seq<ModeData>)
    requires Agree(list) && Sorted(other) && multiset(other) == multiset(list) && |other| == |list| > 0
    ensures other[|list| - 1] == list[|list| - 1]
  {
    var n := |list| - 1;
    assert list[n] in multiset(other) && other[n] in multiset(list);
    var i :| 0 <= i < |other| && other[i] == list[n];
    var j :| 0 <= j < |list| && list[j] == other[n];
    assert other[i].dataPos <= other[n].dataPos;
    assert j == n;
  }

  lemma SameBeforeLast<T>(a: seq<T>, b: seq<T>)
    requires multiset(a) == multiset(b) && |a| == |b| > 0 && a[|a| - 1] == b[|b| - 1]
    ensures multiset(a[..|a| - 1]) == multiset(b[..|b| - 1])
  {
    var n := |a| - 1;
    assert a == a[..n] + [a[n]] && b == b[..n] + [b[n]];
    assert multiset(a[..n]) == multiset(a) - multiset{a[n]};
    assert multiset(b[..n]) == multiset(b) - multiset{b[n]};
  }

  lemma SortKeepsAgreed(list: seq<ModeData>)
    requires Agree(list)
    ensures SortByPos(list) == list
  {
    SortSorts(list);
    OnlyOneOrder(list, SortByPos(list));
  }

  /** Saved and loaded again, a list whose positions agree comes back as it was if and only if it can be stored. */
  lemma SaveLoadIff(list: seq<ModeData>)
    requires Agree(list)
    ensures AllStorable(list) <==>
              ReadList(ListText(list)).Some? && SortByPos(ReadList(ListText(list)).value) == list
  {
    hide ReadList, ListText, Storable, SortByPos, Agree;
    var read := ReadList(ListText(list));
    ListRoundTripIff(list);
    if AllStorable(list) {
      SortKeepsAgreed(list);
    } else if read.Some? && SortByPos(read.value) == list {
      ReadIsStorable(ListText(list));
      SortSorts(read.value);
      StorableRearranged(read.value, list);
      assert false;
    }
  }

  lemma StorableRearranged(list: seq<ModeData>, other: seq<ModeData>)
    requires AllStorable(list) && multiset(other) == multiset(list)
    ensures AllStorable(other)
  {
    hide Storable;
    forall i | 0 <= i < |other| ensures Storable(other[i]) {
      assert other[i] in multiset(list);
    }
  }

  /** What the program relies on in its JSON library: it reads what `ReadArray` reads, and what it writes. */
  ghost predicate Library(read: string -> Option<seq<map<string, string>>>, write: seq<map<string, string>> -> string) {
    && (forall text :: ReadArray(text).Some? ==> read(text) == ReadArray(text))
    && (forall data :: read(write(data)) == Some(data))
  }

  /** The way of the list through the file: printed, read by the library, written by it in its own layout, read from
      the file in the next start, and sorted. */
  lemma ThroughTheFile(list: seq<ModeData>, read: string -> Option<seq<map<string, string>>>,
                       write: seq<map<string, string>> -> string)
    requires Library(read, write) && Agree(list) && AllStorable(list)
    ensures read(ListText(list)).Some?
    ensures var file := write(read(ListText(list)).value);
            read(file).Some? && SortByPos(AllFromJson(read(file).value)) == list
  {
    hide ReadArray, FromJson, ListText, SortByPos, Agree, Storable;
    ListRoundTrip(list);
    SortKeepsAgreed(list);
  }

  /** Even shuffled, the saved modes come back in the order of their positions. */
  lemma ShuffledSaveLoad(list: seq<ModeData>, shuffled: seq<ModeData>)
    requires Agree(list) && AllStorable(list) && multiset(shuffled) == multiset(list)
    ensures ReadList(ListText(shuffled)).Some? && SortByPos(ReadList(ListText(shuffled)).value) == list
  {
    forall i | 0 <= i < |shuffled| ensures Storable(shuffled[i]) {
      assert shuffled[i] in multiset(list);
    }
    ListRoundTrip(shuffled);
    SortSorts(shuffled);
    OnlyOneOrder(list, SortByPos(shuffled));
  }

  // ----- which lists are loaded in agreement -------------------------------------------------

  predicate DifferentPositions(list: seq<ModeData>) {
    forall i, j :: 0 <= i < j < |list| ==> list[i].dataPos != list[j].dataPos
  }

  predicate PositionsInRange(list: seq<ModeData>) {
    forall i :: 0 <= i < |list| ==> 1 <= list[i].dataPos <= |list|
  }

  lemma CountsTwice<T>(s: seq<T>, i: nat, j: nat)
    requires i < j < |s| && s[i] == s[j]
    ensures multiset(s)[s[i]] >= 2
  {
    assert s == s[..j] + [s[j]] + s[j + 1..];
    assert s[i] == s[..j][i];
    assert s[i] in multiset(s[..j]);
  }

  lemma DifferentRearranged(list: seq<ModeData>, other: seq<ModeData>)
    requires DifferentPositions(list) && multiset(other) == multiset(list)
    ensures DifferentPositions(other)
  {
    forall i, j | 0 <= i < j < |other| ensures other[i].dataPos != other[j].dataPos {
      assert other[i] in multiset(list) && other[j] in multiset(list);
      if other[i] == other[j] {
        CountsTwice(other, i, j);
        assert Distinct(list);
        OnceEach(list, other[i]);
      }
    }
  }

  lemma InRangeRearranged(list: seq<ModeData>, other: seq<ModeData>)
    requires PositionsInRange(list) && multiset(other) == multiset(list)
    ensures PositionsInRange(other)
  {
    assert |other| == |multiset(other)| == |list|;
    forall i | 0 <= i < |other| ensures 1 <= other[i].dataPos <= |other| {
      assert other[i] in multiset(list);
    }
  }

  lemma {:induction false} Climbs(list: seq<ModeData>, i: nat, j: nat)
    requires Sorted(list) && DifferentPositions(list) && i <= j < |list|
    ensures list[j].dataPos - list[i].dataPos >= j - i
    decreases j
  {
    if i < j { Climbs(list, i, j - 1); }
  }

  /** A loaded list has its positions in agreement if and only if they are the numbers from 1 on, each once. */
  lemma LoadedAgreesIff(list: seq<ModeData>)
    ensures Agree(SortByPos(list)) <==> DifferentPositions(list) && PositionsInRange(list)
  {
    hide SortByPos;
    var sorted := SortByPos(list);
    SortSorts(list);
    assert |sorted| == |multiset(sorted)| == |list|;
    if Agree(sorted) {
      DifferentRearranged(sorted, list);
      InRangeRearranged(sorted, list);
    }
    if DifferentPositions(list) && PositionsInRange(list) {
      DifferentRearranged(list, sorted);
      InRangeRearranged(list, sorted);
      forall i | 0 <= i < |sorted| ensures sorted[i].dataPos == i + 1 {
        Climbs(sorted, 0, i);
        Climbs(sorted, i, |sorted| - 1);
      }
    }
  }

  // ----- the edits, on lists with positions --------------------------------------------------

  datatype Edit = Append(m: ModeData) | Update(m: ModeData, at: int) | Remove(at: int) | Move(from: int, to: int)

  predicate InRange(list: seq<ModeData>, e: Edit) {
    match e
    case Append(_) => true
    case Update(_, at) => 0 <= at < |list|
    case Remove(at) => 0 <= at < |list|
    case Move(from, to) => 0 <= from < |list| && 0 <= to < |list|
  }

  function Apply(list: seq<ModeData>, e: Edit): seq<ModeData>
    requires InRange(list, e)
  {
    match e
    case Append(m) => list + [m.(dataPos := |list| + 1)]
    case Update(m, at) => list[at := m]
    case Remove(at) =>
      list[..at] + seq(|list| - at - 1, i requires 0 <= i < |list| - at - 1 =>
                                          list[at + 1 + i].(dataPos := list[at + 1 + i].dataPos - 1))
    case Move(from, to) =>
      var a, b := list[from], list[to];
      list[from := b.(dataPos := a.dataPos)][to := a.(dataPos := b.dataPos)]
  }

  // ----- the same edits, on plain sequences --------------------------------------------------

  /** A mode without its position. */
  function Content(m: ModeData): ModeData { m.(dataPos := 0) }

  function Contents(list: seq<ModeData>): (c: seq<ModeData>)
    ensures |c| == |list| && forall i :: 0 <= i < |list| ==> c[i] == Content(list[i])
  {
    seq(|list|, i requires 0 <= i < |list| => Content(list[i]))
  }

  /** Append, replace, remove and exchange in a plain sequence. */
  function PlainApply(c: seq<ModeData>, e: Edit): seq<ModeData>
    requires InRange(c, e)
  {
    match e
    case Append(m) => c + [Content(m)]
    case Update(m, at) => c[at := Content(m)]
    case Remove(at) => c[..at] + c[at + 1..]
    case Move(from, to) => c[from := c[to]][to := c[from]]
  }

  /** Every edit acts on the modes as on a plain sequence. */
  lemma EditIsPlain(list: seq<ModeData>, e: Edit)
    requires InRange(list, e)
    ensures InRange(Contents(list), e) && Contents(Apply(list, e)) == PlainApply(Contents(list), e)
  {
  }

  /** An edit keeps the positions in agreement, except one that puts in a mode with a foreign position. */
  lemma EditAgreesIff(list: seq<ModeData>, e: Edit)
    requires InRange(list, e) && Agree(list)
    ensures Agree(Apply(list, e)) <==> (e.Update? ==> e.m.dataPos == e.at + 1)
  {
    var t := Apply(list, e);
    match e
    case Append(m) =>
    case Update(m, at) => assert t[at] == m;
    case Remove(at) =>
    case Move(from, to) =>
  }

  predicate AllInRange(list: seq<ModeData>, es: seq<Edit>)
    decreases es
  {
    es == [] || (InRange(list, es[0]) && AllInRange(Apply(list, es[0]), es[1..]))
  }

  function ApplyAll(list: seq<ModeData>, es: seq<Edit>): seq<ModeData>
    requires AllInRange(list, es)
    decreases es
  {
    if es == [] then list else ApplyAll(Apply(list, es[0]), es[1..])
  }

  ghost predicate IsPlainRun(c: seq<ModeData>, es: seq<Edit>, d: seq<ModeData>)
    decreases es
  {
    if es == [] then d == c else InRange(c, es[0]) && IsPlainRun(PlainApply(c, es[0]), es[1..], d)
  }

  /** Over every sequence of edits that keep an item's own position: agreement holds throughout, the modes behave as a
      plain sequence, and the text saved at the end restores the list. */
  lemma {:induction false} EveryEditing(list: seq<ModeData>, es: seq<Edit>)
    requires Agree(list) && AllInRange(list, es)
    requires forall i :: 0 <= i < |es| && es[i].Update? ==> es[i].m.dataPos == es[i].at + 1
    ensures Agree(ApplyAll(list, es)) && IsPlainRun(Contents(list), es, Contents(ApplyAll(list, es)))
    ensures AllStorable(ApplyAll(list, es)) <==>
              var read := ReadList(ListText(ApplyAll(list, es)));
              read.Some? && SortByPos(read.value) == ApplyAll(list, es)
    decreases es
  {
    hide Apply, PlainApply;
    if es != [] {
      EditAgreesIff(list, es[0]);
      EditIsPlain(list, es[0]);
      forall i | 0 <= i < |es[1..]| && es[1..][i].Update? ensures es[1..][i].m.dataPos == es[1..][i].at + 1 {
        assert es[1..][i] == es[i + 1];
      }
      EveryEditing(Apply(list, es[0]), es[1..]);
    } else {
      SaveLoadIff(list);
    }
  }

  // ----- the object --------------------------------------------------------------------------

  /** The part of the text that the loops have built after `n` modes. */
  function TextSoFar(list: seq<ModeData>, n: nat): string
    requires n <= |list|
  {
    if n == 0 then "["
    else TextSoFar(list, n - 1) + ToString(list[n - 1]) + if n - 1 != |list| - 1 then "," else ""
  }

  lemma {:induction false} TextAssoc(list: seq<ModeData>, n: nat)
    requires n < |list|
    ensures TextSoFar(list, n) + ItemsText(list[n..]) == TextSoFar(list, |list|)
    decreases |list| - n
  {
    hide ToString;
    if n == |list| - 1 {
      assert TextSoFar(list, |list|) == TextSoFar(list, n) + ToString(list[n]) + "";
    } else {
      TextAssoc(list, n + 1);
      assert list[n..][0] == list[n] && list[n..][1..] == list[n + 1..];
      assert TextSoFar(list, n) + (ToString(list[n]) + "," + ItemsText(list[n + 1..]))
          == TextSoFar(list, n) + ToString(list[n]) + "," + ItemsText(list[n + 1..]);
    }
  }

  lemma WholeText(list: seq<ModeData>)
    ensures TextSoFar(list, |list|) + "]" == ListText(list)
  {
    if list != [] {
      TextAssoc(list, 0);
      assert list[0..] == list;
    }
  }

  class CConfMgr {
    var modeDataList: seq<ModeData>

    /** The text last handed to the JSON reader for saving. */
    var saved: string

    constructor ()
      ensures modeDataList == [] && saved == ""
    {
      modeDataList, saved := [], "";
    }

    /** `init`, after the file was looked for. `fallback` is the built-in list, taken when there is no file or no JSON
        in it; `other` says that the file holds JSON other than a list of modes, of which nothing is taken. */
    method Init(file: Option<string>, other: bool, fallback: string)
      modifies this`modeDataList
      ensures var found := if file.Some? && (ReadList(file.value).Some? || other)
                           then ReadList(file.value) else ReadList(fallback);
              modeDataList == SortByPos(old(modeDataList) + if found.Some? then found.value else [])
    {
      hide ReadArray, FromJson, SortByPos;
      var flag, data := false, None;
      if file.Some? {
        data := ReadArray(file.value);
        flag := data.Some? || other;
      }
      if !flag { data := ReadArray(fallback); }
      if data.Some? {
        AddAll(data.value);
      } else {
        assert modeDataList == modeDataList + [];
      }
      modeDataList := SortByPos(modeDataList);
    }

    /** The loop of `init` over the array read. */
    method AddAll(data: seq<map<string, string>>)
      modifies this`modeDataList
      ensures modeDataList == old(modeDataList) + AllFromJson(data)
    {
      hide FromJson;
      ghost var before, all := modeDataList, AllFromJson(data);
      var i := 0;
      while i < |data|
        invariant 0 <= i <= |data| && modeDataList == before + all[..i]
      {
        modeDataList := modeDataList + [FromJson(data[i])];
        i := i + 1;
      }
      assert all[..i] == all;
    }

    method UpdateModeDataByPos(modeData: ModeData, position: int)
      requires position == -1 || 0 <= position < |modeDataList|
      modifies this
      ensures modeDataList
              == Apply(old(modeDataList), if position == -1 then Append(modeData) else Update(modeData, position))
      ensures position == -1 ==> modeDataList == old(modeDataList) + [modeData.(dataPos := |old(modeDataList)| + 1)]
      ensures position != -1 ==> modeDataList == old(modeDataList)[position := modeData]
      ensures saved == ListText(modeDataList)
    {
      if position == -1 {
        modeDataList := modeDataList + [modeData.(dataPos := |modeDataList| + 1)];
      } else {
        modeDataList := modeDataList[position := modeData];
      }
      Save();
    }

    method DeleteModeData(position: int)
      requires 0 <= position < |modeDataList|
      modifies this
      ensures modeDataList == Apply(old(modeDataList), Remove(position))
      ensures |modeDataList| == |old(modeDataList)| - 1
      ensures forall i :: 0 <= i < position ==> modeDataList[i] == old(modeDataList)[i]
      ensures forall i :: position <= i < |modeDataList| ==>
                modeDataList[i] == old(modeDataList)[i + 1].(dataPos := old(modeDataList)[i + 1].dataPos - 1)
      ensures saved == ListText(modeDataList)
    {
      hide ToString;
      ghost var target := Apply(modeDataList, Remove(position));
      modeDataList := modeDataList[..position] + modeDataList[position + 1..];
      var text := "[";
      var i := 0;
      while i < |modeDataList|
        invariant 0 <= i <= |modeDataList| == |target|
        invariant modeDataList[..i] == target[..i]
        invariant forall j :: i <= j < |target| ==>
                    modeDataList[j] == if j < position then target[j] else target[j].(dataPos := target[j].dataPos + 1)
        invariant text == TextSoFar(target, i)
      {
        if i >= position {
          modeDataList := modeDataList[i := modeDataList[i].(dataPos := modeDataList[i].dataPos - 1)];
        }
        assert modeDataList[i] == target[i];
        text := text + ToString(modeDataList[i]);
        if i != |modeDataList| - 1 {
          text := text + ",";
        }
        i := i + 1;
      }
      assert modeDataList == target;
      WholeText(target);
      saved := text + "]";
    }

    method MovedMode(fromPos: int, toPos: int)
      requires 0 <= fromPos < |modeDataList| && 0 <= toPos < |modeDataList|
      modifies this
      ensures modeDataList == Apply(old(modeDataList), Move(fromPos, toPos))
      ensures |modeDataList| == |old(modeDataList)|
      ensures modeDataList[fromPos] == old(modeDataList)[toPos].(dataPos := old(modeDataList)[fromPos].dataPos)
      ensures modeDataList[toPos] == old(modeDataList)[fromPos].(dataPos := old(modeDataList)[toPos].dataPos)
      ensures forall i :: 0 <= i < |modeDataList| && i != fromPos && i != toPos ==>
                modeDataList[i] == old(modeDataList)[i]
      ensures saved == ListText(modeDataList)
    {
      modeDataList := modeDataList[fromPos := modeDataList[toPos]][toPos := modeDataList[fromPos]];
      var p, q := modeDataList[fromPos].dataPos, modeDataList[toPos].dataPos;
      modeDataList := modeDataList[fromPos := modeDataList[fromPos].(dataPos := q)];
      modeDataList := modeDataList[toPos := modeDataList[toPos].(dataPos := p)];
      Save();
    }

    /** The loop at the end of the edits: the text of the whole list. */
    method Save()
      modifies this`saved
      ensures saved == ListText(modeDataList)
    {
      hide ToString;
      var text := "[";
      var i := 0;
      while i < |modeDataList|
        invariant 0 <= i <= |modeDataList| && text == TextSoFar(modeDataList, i)
      {
        text := text + ToString(modeDataList[i]);
        if i != |modeDataList| - 1 {
          text := text + ",";
        }
        i := i + 1;
      }
      WholeText(modeDataList);
      saved := text + "]";
    }
  }
}
