/** A sparse table from page numbers to protections, kept in regions of 1024 pages. */
module PageProtectionTable {
  import opened Words

  /** `uintptr_t`. Assigning to one of this type proves that the arithmetic did not wrap. */
  type uintptr = x: nat | x < 0x1_0000_0000_0000_0000

  const PAGES_PER_REGION: nat := 1024
  const UNKNOWN: byte := 0xff

  datatype Region = Region(pages: seq<byte>, live: nat)

  const EMPTY: Region := Region(Fill(PAGES_PER_REGION, UNKNOWN), 0)

  // ---- counting ----

  /** `std::count_if(begin, end, != Unknown)` */
  function KnownIn(s: seq<byte>): (n: nat)
    ensures n <= |s|
    ensures n > 0 <==> exists i :: 0 <= i < |s| && s[i] != UNKNOWN
  {
    if s == [] then 0 else (if s[|s| - 1] != UNKNOWN then 1 else 0) + KnownIn(s[..|s| - 1])
  }

  /** `std::count(begin, end, Unknown)` */
  function UnknownIn(s: seq<byte>): (n: nat)
    ensures n + KnownIn(s) == |s|
  {
    if s == [] then 0 else (if s[|s| - 1] == UNKNOWN then 1 else 0) + UnknownIn(s[..|s| - 1])
  }

  function Fill(n: nat, v: byte): (r: seq<byte>)
    ensures |r| == n && forall i :: 0 <= i < n ==> r[i] == v
  {
    seq(n, _ => v)
  }

  /** `std::fill` over `[a, b)` */
  function Filled(s: seq<byte>, a: nat, b: nat, v: byte): (r: seq<byte>)
    requires a <= b <= |s|
    ensures |r| == |s|
    ensures forall i :: 0 <= i < |s| ==> r[i] == if a <= i < b then v else s[i]
  {
    s[..a] + Fill(b - a, v) + s[b..]
  }

  lemma {:induction false} KnownInConcat(s: seq<byte>, t: seq<byte>)
    ensures KnownIn(s + t) == KnownIn(s) + KnownIn(t)
  {
    if t == [] {
      assert s + t == s;
    } else {
      assert (s + t)[..|s + t| - 1] == s + t[..|t| - 1];
      KnownInConcat(s, t[..|t| - 1]);
    }
  }

  lemma {:induction false} KnownInFill(n: nat, v: byte)
    ensures KnownIn(Fill(n, v)) == if v == UNKNOWN then 0 else n
  {
    if n > 0 {
      assert Fill(n, v)[..n - 1] == Fill(n - 1, v);
      KnownInFill(n - 1, v);
    }
  }

  lemma KnownInParts(x: seq<byte>, y: seq<byte>, z: seq<byte>)
    ensures KnownIn(x + y + z) == KnownIn(x) + KnownIn(y) + KnownIn(z)
  {
    KnownInConcat(x + y, z);
    KnownInConcat(x, y);
  }

  lemma KnownInSplit(s: seq<byte>, k: nat)
    requires k <= |s|
    ensures KnownIn(s) == KnownIn(s[..k]) + KnownIn(s[k..])
  {
    hide KnownIn;
    KnownInConcat(s[..k], s[k..]);
    assert s == s[..k] + s[k..];
  }

  lemma KnownInSlices(s: seq<byte>, a: nat, b: nat)
    requires a <= b <= |s|
    ensures KnownIn(s) == KnownIn(s[..a]) + KnownIn(s[a..b]) + KnownIn(s[b..])
  {
    hide KnownIn;
    KnownInSplit(s, b);
    KnownInSplit(s[..b], a);
    assert s[..b][..a] == s[..a];
  }

  lemma KnownInFilled(s: seq<byte>, a: nat, b: nat, v: byte)
    requires a <= b <= |s|
    ensures KnownIn(Filled(s, a, b, v)) == KnownIn(s[..a]) + (if v == UNKNOWN then 0 else b - a) + KnownIn(s[b..])
  {
    hide KnownIn, Fill;
    KnownInParts(s[..a], Fill(b - a, v), s[b..]);
    KnownInFill(b - a, v);
  }

  /** Filling part of a region changes its live count by exactly what the code adds or subtracts. */
  lemma FillCounts(s: seq<byte>, a: nat, b: nat, v: byte)
    requires a <= b <= |s|
    ensures v != UNKNOWN ==> KnownIn(Filled(s, a, b, v)) == KnownIn(s) + UnknownIn(s[a..b])
    ensures v == UNKNOWN ==> KnownIn(Filled(s, a, b, v)) == KnownIn(s) - KnownIn(s[a..b])
  {
    hide KnownIn, UnknownIn, Filled;
    KnownInSlices(s, a, b);
    KnownInFilled(s, a, b, v);
  }

  /** A region of a table: right size, right count, not empty. */
  ghost predicate Good(region: Region) {
    |region.pages| == PAGES_PER_REGION && region.live == KnownIn(region.pages) > 0
  }

  /** The region that results from setting pages in a region that may just have been made. */
  lemma SetIsGood(region: Region, a: nat, b: nat, v: byte)
    requires Good(region) || region == EMPTY
    requires a < b <= PAGES_PER_REGION && v != UNKNOWN
    ensures Good(Region(Filled(region.pages, a, b, v), region.live + UnknownIn(region.pages[a..b])))
  {
    KnownInFill(PAGES_PER_REGION, UNKNOWN);
    FillCounts(region.pages, a, b, v);
    assert Filled(region.pages, a, b, v)[a] != UNKNOWN;
  }

  class PageProtectionTable {
    var m_regions: map<nat, Region>

    constructor ()
      ensures Valid() && forall page: uintptr :: Get(page) == -1
    {
      m_regions := map[];
    }

    ghost predicate Valid()
      reads this
    {
      forall r :: r in m_regions ==> Good(m_regions[r]) && r <= 0xffff_ffff_ffff_ffff / PAGES_PER_REGION
    }

    /** The protection of a page, or -1 when it is not known. */
    function Get(page: uintptr): (r: int)
      requires Valid()
      reads this
      ensures -1 <= r < UNKNOWN
    {
      var region := page / PAGES_PER_REGION;
      if region !in m_regions then -1
      else
        var value := m_regions[region].pages[page % PAGES_PER_REGION];
        if value == UNKNOWN then -1 else value
    }

    /** Give every page of an inclusive range a protection. */
    method Set(first: uintptr, last: uintptr, protection: byte)
      requires Valid()
      modifies this
      ensures Valid()
      ensures forall page: uintptr ::
        Get(page) == if first <= page <= last && protection != UNKNOWN then protection else old(Get(page))
    {
      if first > last || protection == UNKNOWN {
        return;
      }
      var first, start := first, first;
      while true
        invariant start <= first <= last && Valid()
        invariant forall page: uintptr :: Get(page) == if start <= page < first then protection else old(Get(page))
        decreases last - first
      {
        var offset := first % PAGES_PER_REGION;
        var count := Min(last - first, PAGES_PER_REGION - offset - 1) + 1;
        SetInRegion(first / PAGES_PER_REGION, offset, count, protection);
        if last - first == count - 1 {
          return;
        }
        first := first + count;
      }
    }

    /** One turn of the loop of `Set`. */
    method SetInRegion(key: nat, offset: nat, count: nat, protection: byte)
      requires Valid() && key <= 0xffff_ffff_ffff_ffff / PAGES_PER_REGION
      requires 0 < count && offset + count <= PAGES_PER_REGION && protection != UNKNOWN
      modifies this
      ensures Valid()
      ensures forall page: uintptr ::
        var at := page - key * PAGES_PER_REGION;
        Get(page) == if offset <= at < offset + count then protection else old(Get(page))
    {
      hide Filled, KnownIn, UnknownIn;
      var region := if key in m_regions then m_regions[key] else EMPTY;
      SetIsGood(region, offset, offset + count, protection);
      m_regions := m_regions[key := Region(
        Filled(region.pages, offset, offset + count, protection),
        region.live + UnknownIn(region.pages[offset..offset + count]))];
    }

    /** Forget every page of an inclusive range, and every region that holds nothing afterwards. */
    method Erase(first: uintptr, last: uintptr)
      requires Valid()
      modifies this
      ensures Valid()
      ensures forall page: uintptr :: Get(page) == if first <= page <= last then -1 else old(Get(page))
    {
      if first > last {
        return;
      }
      hide Get;
      var last_region := last / PAGES_PER_REGION;
      ghost var from := first / PAGES_PER_REGION;
      var it := LowerBound(first / PAGES_PER_REGION);
      while it != -1 && it <= last_region
        invariant Valid() && IsLowerBound(from, it) && first / PAGES_PER_REGION <= from
        invariant forall page: uintptr ::
          Get(page) == (if first <= page <= last && page / PAGES_PER_REGION < from then -1 else old(Get(page)))
        decreases last_region + 1 - from
      {
        GapIsUnknown(from, it);
        EraseInRegion(first, last, it);
        from := it + 1;
        it := LowerBound(it + 1);
      }
      GapIsUnknown(from, if it == -1 then last_region + 1 else it);
    }

    /** One turn of the loop of `Erase`, up to the step to the next region. */
    method EraseInRegion(first: uintptr, last: uintptr, it: nat)
      requires Valid() && it in m_regions && first <= last
      requires first / PAGES_PER_REGION <= it <= last / PAGES_PER_REGION
      modifies this
      ensures Valid()
      ensures forall page: uintptr ::
        Get(page) == (if first <= page <= last && page / PAGES_PER_REGION == it then -1 else old(Get(page)))
    {
      hide Filled, KnownIn, UnknownIn;
      var offset := if it == first / PAGES_PER_REGION then first % PAGES_PER_REGION else 0;
      var end := if it == last / PAGES_PER_REGION then last % PAGES_PER_REGION + 1 else PAGES_PER_REGION;
      if offset == 0 && end == PAGES_PER_REGION {
        m_regions := m_regions - {it};
        return;
      }
      var region := m_regions[it];
      FillCounts(region.pages, offset, end, UNKNOWN);
      var pages := Filled(region.pages, offset, end, UNKNOWN);
      var live := region.live - KnownIn(region.pages[offset..end]);
      if live == 0 {
        m_regions := m_regions - {it};
      } else {
        m_regions := m_regions[it := Region(pages, live)];
      }
    }

    /** No page is known between a key and its lower bound. */
    lemma GapIsUnknown(from: nat, it: nat)
      requires Valid() && forall r :: r in m_regions && r >= from ==> r >= it
      ensures forall page: uintptr :: from <= page / PAGES_PER_REGION < it ==> Get(page) == -1
    {
    }

    ghost predicate IsLowerBound(key: nat, it: int)
      reads this
    {
      && (it == -1 || (it >= key && it in m_regions))
      && forall r :: r in m_regions && r >= key ==> it != -1 && it <= r
    }

    /** `std::map::lower_bound`; -1 stands for the end. */
    method LowerBound(key: nat) returns (it: int)
      ensures IsLowerBound(key, it)
    {
      it := -1;
      var rest := m_regions.Keys;
      while rest != {}
        invariant rest <= m_regions.Keys
        invariant it == -1 || (it >= key && it in m_regions)
        invariant forall r :: r in m_regions && r >= key && r !in rest ==> it != -1 && it <= r
        decreases |rest|
      {
        var r :| r in rest;
        rest := rest - {r};
        if r >= key && (it == -1 || r < it) {
          it := r;
        }
      }
    }

    ghost predicate HoldsKnownPage(region: nat)
      requires Valid()
      reads this
    {
      exists page: uintptr :: page / PAGES_PER_REGION == region && Get(page) != -1
    }

    /** The number of distinct regions that hold a known page. */
    function RegionCount(): (n: nat)
      requires Valid()
      reads this
      ensures exists regions: set<nat> :: |regions| == n && forall r: nat :: r in regions <==> HoldsKnownPage(r)
    {
      KeysHoldKnownPages();
      |m_regions|
    }

    lemma KeysHoldKnownPages()
      requires Valid()
      ensures forall r: nat :: r in m_regions.Keys <==> HoldsKnownPage(r)
    {
      forall r | r in m_regions ensures HoldsKnownPage(r) {
        var i :| 0 <= i < PAGES_PER_REGION && m_regions[r].pages[i] != UNKNOWN;
        var page: uintptr := r * PAGES_PER_REGION + i;
        assert Get(page) != -1;
      }
    }
  }

  function Min(a: int, b: int): int {
    if a < b then a else b
  }
}
