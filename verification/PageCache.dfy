/** `wind_mgr`: pages are built once, taken off the screen when another one is shown, and put back when wanted again. */
module PageCache {
  import opened Collections

  datatype PageType = NoPage | Home | SteamBarbecue | WaterModeLayout | WaterModify | WaterAdd

  /** `PageBase`, of which only the identity and the type matter here. */
  class Page {
    const pagetype: PageType

    constructor (t: PageType)
      ensures pagetype == t
    {
      pagetype := t;
    }
  }

  function Types(pages: seq<Page>): (ts: seq<PageType>)
    ensures |ts| == |pages| && forall i :: 0 <= i < |pages| ==> ts[i] == pages[i].pagetype
  {
    seq(|pages|, i requires 0 <= i < |pages| => pages[i].pagetype)
  }

  /** `removeView`: takes the first matching child out, if there is one. */
  function Without(views: seq<Page>, p: Page): seq<Page> {
    if views == [] then []
    else if views[0] == p then views[1..]
    else [views[0]] + Without(views[1..], p)
  }

  lemma {:induction false} WithoutAbsent(views: seq<Page>, p: Page)
    requires p !in views
    ensures Without(views, p) == views
    decreases views
  {
    if views != [] { WithoutAbsent(views[1..], p); }
  }

  /** The pages are those built, one for each type. */
  ghost predicate Intact(pages: seq<Page>, built: map<PageType, Page>) {
    && Distinct(Types(pages))
    && (forall i :: 0 <= i < |pages| ==> pages[i].pagetype in built && built[pages[i].pagetype] == pages[i])
    && (forall t :: t in built ==> t != NoPage && built[t].pagetype == t && built[t] in pages)
  }

  /** Where the page comes from that is at `i` after the one at `it` was put last. */
  function Before(n: nat, it: nat, i: nat): nat
    requires it < n
  {
    if i < it then i else if i < n - 1 then i + 1 else it
  }

  lemma MovedFrom(all: seq<Page>, it: nat)
    requires it < |all|
    ensures var one := all[..it] + all[it + 1..] + [all[it]];
            |one| == |all| && forall i: nat :: i < |one| ==> one[i] == all[Before(|all|, it, i)]
  {
  }

  lemma MovedDistinct(all: seq<Page>, it: nat, one: seq<Page>)
    requires it < |all| == |one| && Distinct(Types(all))
    requires forall i: nat :: i < |one| ==> one[i] == all[Before(|all|, it, i)]
    ensures Distinct(Types(one))
  {
    forall i, j | 0 <= i < j < |one| ensures Types(one)[i] != Types(one)[j] {
      var a, b := Before(|all|, it, i), Before(|all|, it, j);
      assert Types(all)[a] != Types(all)[b];
    }
  }

  /** One page taken out of its place and put last. */
  lemma MovedLast(all: seq<Page>, it: nat, built: map<PageType, Page>)
    requires it < |all| && Intact(all, built)
    ensures Intact(all[..it] + all[it + 1..] + [all[it]], built)
  {
    var one := all[..it] + all[it + 1..] + [all[it]];
    MovedFrom(all, it);
    MovedDistinct(all, it, one);
    hide Distinct, Types;
    forall p | p in all ensures p in one {
      var i :| 0 <= i < |all| && all[i] == p;
      assert one[if i < it then i else if i == it then |all| - 1 else i - 1] == p;
    }
  }

  /** A page of a type not seen before is added. */
  lemma AddedLast(all: seq<Page>, p: Page, built: map<PageType, Page>)
    requires Intact(all, built) && p.pagetype != NoPage && forall i :: 0 <= i < |all| ==> all[i].pagetype != p.pagetype
    ensures Intact(all + [p], built[p.pagetype := p]) && p.pagetype !in built
  {
    var one := all + [p];
    assert forall i :: 0 <= i < |all| ==> one[i] == all[i];
    assert one[|all|] == p;
  }

  class WindMgr {
    var cur_showpage: Page?
    var page_recycle_list: seq<Page>

    /** The children of the view group `root_page`, in order. */
    var root_page: seq<Page>

    /** Delayed close messages not yet handled. */
    var pending: nat

    /** History: the page that was built for each type. */
    ghost var built: map<PageType, Page>

    /** Current and recycled pages. */
    ghost function Pages(): seq<Page>
      reads this
    {
      page_recycle_list + if cur_showpage == null then [] else [cur_showpage]
    }

    ghost predicate Valid()
      reads this
    {
      && Intact(Pages(), built)
      && OnScreen()
      && pending <= 1
    }

    constructor ()
      ensures Valid() && built == map[] && cur_showpage == null && pending == 0
    {
      cur_showpage, page_recycle_list, root_page, pending, built := null, [], [], 0, map[];
    }

    /** Afterwards the page shown is the one and only page of its type: the one built before if there was one, and
        otherwise a new one; every page built so far is kept. */
    method ShowPage(t: PageType)
      requires Valid()
      modifies this
      ensures Valid()
      ensures forall u :: u in old(built) ==> u in built && built[u] == old(built)[u]
      ensures built.Keys == old(built).Keys + if t == NoPage then {} else {t}
      ensures t != NoPage ==> cur_showpage == built[t]
      ensures t == NoPage ==> cur_showpage == null
      ensures root_page == if t == NoPage then [] else [built[t]]
      ensures t != NoPage && t !in old(built) ==> fresh(built[t])
      ensures pending == if old(cur_showpage) != null && old(cur_showpage).pagetype == t then old(pending) else 1
    {
      if cur_showpage != null && cur_showpage.pagetype == t {
        assert Pages()[|page_recycle_list|] == cur_showpage;
        return;
      }
      pending := 0;
      TakeDown();
      var it := Lookup(t);
      pending := pending + 1;
      if it >= 0 {
        Reuse(it);
      } else if t == NoPage {
        cur_showpage := null;
      } else {
        Build(t);
      }
    }

    /** A recycled page goes back on the screen. */
    method Reuse(it: nat)
      requires it < |page_recycle_list| && root_page == [] && Intact(page_recycle_list, built)
      modifies this`root_page, this`cur_showpage, this`page_recycle_list
      ensures cur_showpage == old(page_recycle_list)[it]
      ensures OnScreen() && Intact(Pages(), built)
      ensures cur_showpage.pagetype in built && built[cur_showpage.pagetype] == cur_showpage
    {
      MovedLast(page_recycle_list, it, built);
      var page := page_recycle_list[it];
      root_page := root_page + [page];
      cur_showpage := page;
      page_recycle_list := page_recycle_list[..it] + page_recycle_list[it + 1..];
    }

    /** The current page, if any, goes off the screen and into the recycle list. */
    method TakeDown()
      requires OnScreen()
      modifies this`root_page, this`page_recycle_list
      ensures page_recycle_list == old(Pages()) && root_page == []
    {
      if cur_showpage != null {
        root_page := Without(root_page, cur_showpage);
        page_recycle_list := page_recycle_list + [cur_showpage];
      }
    }

    /** Exactly the current page is on the screen. */
    ghost predicate OnScreen()
      reads this
    {
      root_page == if cur_showpage == null then [] else [cur_showpage]
    }

    /** The place of the recycled page of type `t`, or -1. */
    method Lookup(t: PageType) returns (it: int)
      ensures it == -1 || (0 <= it < |page_recycle_list| && page_recycle_list[it].pagetype == t)
      ensures it == -1 ==> forall i :: 0 <= i < |page_recycle_list| ==> page_recycle_list[i].pagetype != t
    {
      it := 0;
      while it < |page_recycle_list|
        invariant 0 <= it <= |page_recycle_list|
        invariant forall i :: 0 <= i < it ==> page_recycle_list[i].pagetype != t
      {
        if page_recycle_list[it].pagetype == t { return; }
        it := it + 1;
      }
      it := -1;
    }

    /** A new page comes up on the screen as it is built. */
    method Build(t: PageType)
      requires t != NoPage && root_page == [] && Intact(page_recycle_list, built)
      requires forall i :: 0 <= i < |page_recycle_list| ==> page_recycle_list[i].pagetype != t
      modifies this`root_page, this`cur_showpage, this`built
      ensures t !in old(built) && cur_showpage != null && fresh(cur_showpage) && cur_showpage.pagetype == t
      ensures root_page == [cur_showpage] && built == old(built)[t := cur_showpage] && Intact(Pages(), built)
    {
      var tmp := new Page(t);
      AddedLast(page_recycle_list, tmp, built);
      root_page := root_page + [tmp];
      built := built[t := tmp];
      cur_showpage := tmp;
    }

    /** The delayed close finds nothing to close: recycled pages are off the screen already. */
    method HandleMessage()
      requires Valid() && pending > 0
      modifies this`root_page, this`pending
      ensures Valid() && root_page == old(root_page) && pending == 0
    {
      pending := pending - 1;
      ghost var ts, n := Types(Pages()), |page_recycle_list|;
      var it := 0;
      while it < |page_recycle_list|
        invariant 0 <= it <= |page_recycle_list| && root_page == old(root_page) && pending == old(pending) - 1
      {
        assert ts[it] == page_recycle_list[it].pagetype;
        if root_page != [] { assert ts[n] == root_page[0].pagetype; }
        WithoutAbsent(root_page, page_recycle_list[it]);
        root_page := Without(root_page, page_recycle_list[it]);
        it := it + 1;
      }
    }

    /** At most five pages are ever built. */
    lemma AtMostFive()
      requires Valid()
      ensures |built| <= 5 && |Pages()| <= 5
    {
      var five := {Home, SteamBarbecue, WaterModeLayout, WaterModify, WaterAdd};
      assert built.Keys <= five;
      SubsetSize(built.Keys, five);
      DistinctSize(Types(Pages()), five);
    }
  }
}
