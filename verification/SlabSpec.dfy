/** Pages cut into slots of one size: a header, then the slots, the free ones chained. */
module SlabSpec {
  import opened Bits
  import opened Seqs

  const PAGE: int := 4096
  const HEADER: int := 8 + 4 + 4 + 8  // free_head, alloc_slots, total_slots, next
  const DATA: int := 4072  // PAGE - HEADER
  const NULL: int := -1

  /** Size classes are powers of two from 8 to 2048. */
  predicate Class(c: int) {
    3 <= c <= 11
  }

  function Sz(c: int): int {
    if c == 3 then 8 else if c == 4 then 16 else if c == 5 then 32 else if c == 6 then 64 else if c == 7 then 128
    else if c == 8 then 256 else if c == 9 then 512 else if c == 10 then 1024 else 2048
  }

  lemma SzIsPow2(c: nat)
    requires Class(c)
    ensures Sz(c) == Pow2(c)
  {
    assert Pow2(3) == 8 && Pow2(4) == 16 && Pow2(5) == 32 && Pow2(6) == 64 && Pow2(7) == 128;
    assert Pow2(8) == 2 * Pow2(7) && Pow2(9) == 2 * Pow2(8) && Pow2(10) == 2 * Pow2(9) && Pow2(11) == 2 * Pow2(10);
  }

  function Slots(c: int): int {
    DATA / Sz(c)
  }

  function SlotAddr(p: int, c: int, k: int): int {
    p + HEADER + k * Sz(c)
  }

  lemma SlotEnd(c: int, k: int)
    requires Class(c) && 0 <= k < Slots(c)
    ensures 0 <= k * Sz(c) && k * Sz(c) + Sz(c) <= DATA
  {
  }

  lemma InPage(p: int, x: int)
    requires p % PAGE == 0 && 0 < x < PAGE
    ensures (p + x) % PAGE == x
  {
  }

  /** A slot lies behind the header and inside the page, and never on a page boundary; rounding
      its address down gives the page. */
  lemma SlotInside(p: int, c: int, k: int)
    requires Class(c) && 0 <= k < Slots(c) && 0 <= p && p % PAGE == 0
    ensures p + HEADER <= SlotAddr(p, c, k) && SlotAddr(p, c, k) + Sz(c) <= p + PAGE
    ensures SlotAddr(p, c, k) % PAGE != 0
    ensures SlotAddr(p, c, k) - SlotAddr(p, c, k) % PAGE == p
  {
    SlotEnd(c, k);
    InPage(p, HEADER + k * Sz(c));
  }

  /** Different slots do not overlap, in one page or in two. */
  lemma SlotsApart(p: int, c: int, k: int, q: int, d: int, m: int)
    requires Class(c) && 0 <= k < Slots(c) && 0 <= p && p % PAGE == 0
    requires Class(d) && 0 <= m < Slots(d) && 0 <= q && q % PAGE == 0
    requires p == q ==> c == d
    ensures (p, k) != (q, m) ==>
      SlotAddr(p, c, k) + Sz(c) <= SlotAddr(q, d, m) || SlotAddr(q, d, m) + Sz(d) <= SlotAddr(p, c, k)
  {
    SlotInside(p, c, k);
    SlotInside(q, d, m);
    if p != q {
      hide SlotAddr, Sz, Slots;
      assert p + PAGE <= q || q + PAGE <= p;
    }
  }

  // ----- one page

  /** `next` is the next page on the list the page is on. */
  datatype Header = Header(freeHead: int, alloc: int, total: int, next: int)

  /** Page `p` holds slots of class `c`: those in `out` are handed out, and the first
      `total - alloc` entries of the free chain are the slots in `chain`, distinct, within the
      page and not handed out.  What the chain leads to after that is left open. */
  ghost predicate PageOk(h: Header, link: map<int, int>, p: int, c: int, chain: seq<int>, out: set<int>) {
    && 0 <= p && p % PAGE == 0 && Class(c)
    && h.total == Slots(c) && h.alloc == |out| && |chain| == h.total - h.alloc
    && Distinct(chain)
    && (forall k :: k in chain ==> 0 <= k < h.total && k !in out && SlotAddr(p, c, k) in link)
    && (forall k :: k in out ==> 0 <= k < h.total)
    && (chain != [] ==> h.freeHead == SlotAddr(p, c, chain[0]))
    && (forall i :: 0 <= i < |chain| - 1 ==> link[SlotAddr(p, c, chain[i])] == SlotAddr(p, c, chain[i + 1]))
  }

  lemma PageTake(h: Header, link: map<int, int>, p: int, c: int, chain: seq<int>, out: set<int>)
    requires PageOk(h, link, p, c, chain, out) && chain != []
    ensures h.freeHead == SlotAddr(p, c, chain[0]) && h.freeHead in link && h.freeHead != NULL
    ensures chain[0] !in out && 0 <= chain[0] < Slots(c)
    ensures PageOk(h.(freeHead := link[h.freeHead], alloc := h.alloc + 1), link, p, c, chain[1..], out + {chain[0]})
  {
    hide Slots;
    assert chain[0] in chain;
    SlotInside(p, c, chain[0]) by { assert 0 <= chain[0] < Slots(c); }
    var t := chain[1..];
    forall i | 0 <= i < |t| ensures t[i] == chain[i + 1] && t[i] in chain && t[i] != chain[0] {}
  }

  lemma PageGive(h: Header, link: map<int, int>, p: int, c: int, chain: seq<int>, out: set<int>, k: int)
    requires PageOk(h, link, p, c, chain, out) && k in out
    ensures var a := SlotAddr(p, c, k);
      PageOk(h.(freeHead := a, alloc := h.alloc - 1), link[a := h.freeHead], p, c, [k] + chain, out - {k})
  {
    hide Slots;
    var a, t := SlotAddr(p, c, k), [k] + chain;
    var link' := link[a := h.freeHead];
    forall i | 0 <= i < |chain| ensures chain[i] in chain && SlotAddr(p, c, chain[i]) != a {
      assert chain[i] in chain;
      SlotDiffers(p, c, chain[i], k);
    }
    forall i | 0 <= i < |t| - 1 ensures link'[SlotAddr(p, c, t[i])] == SlotAddr(p, c, t[i + 1]) {
      if i > 0 { assert t[i] == chain[i - 1] && t[i + 1] == chain[i]; }
    }
  }

  lemma SlotDiffers(p: int, c: int, k: int, m: int)
    requires Class(c) && k != m
    ensures SlotAddr(p, c, k) != SlotAddr(p, c, m)
  {
  }

  /** Writes to another page's slot, or to a slot handed out, leave the page's chain alone. */
  lemma PageFrame(h: Header, link: map<int, int>, p: int, c: int, chain: seq<int>, out: set<int>, a: int, v: int)
    requires PageOk(h, link, p, c, chain, out)
    requires forall k :: k in chain ==> SlotAddr(p, c, k) != a
    ensures PageOk(h, link[a := v], p, c, chain, out)
  {
  }

  /** Every slot of the page has a link, and all but the last lead to the slot behind them. */
  ghost predicate Cut(link: map<int, int>, p: int, c: int) {
    && (forall k :: 0 <= k < Slots(c) ==> SlotAddr(p, c, k) in link)
    && (forall k :: 0 <= k < Slots(c) - 1 ==> link[SlotAddr(p, c, k)] == SlotAddr(p, c, k + 1))
  }

  ghost function UpTo(n: int): seq<int> {
    if n <= 0 then [] else UpTo(n - 1) + [n - 1]
  }

  lemma {:induction false} UpToAt(n: int)
    requires 0 <= n
    ensures |UpTo(n)| == n && forall i :: 0 <= i < n ==> UpTo(n)[i] == i
  {
    if n > 0 { UpToAt(n - 1); }
  }

  /** A freshly cut page: all slots free, in order. */
  lemma FreshPage(h: Header, link: map<int, int>, p: int, c: int)
    requires Class(c) && 0 <= p && p % PAGE == 0 && Cut(link, p, c)
    requires h.freeHead == SlotAddr(p, c, 0) && h.alloc == 0 && h.total == Slots(c)
    ensures PageOk(h, link, p, c, UpTo(Slots(c)), {}) && UpTo(Slots(c)) != []
  {
    UpToAt(Slots(c));
    var chain := UpTo(Slots(c));
    forall k | k in chain ensures 0 <= k < Slots(c) && SlotAddr(p, c, k) in link {
      var i :| 0 <= i < |chain| && chain[i] == k;
    }
  }

  /** Links made so far, `n` of them. */
  ghost predicate CutTo(link: map<int, int>, p: int, c: int, n: int) {
    forall k :: 0 <= k < n ==> SlotAddr(p, c, k) in link && link[SlotAddr(p, c, k)] == SlotAddr(p, c, k + 1)
  }

  /** Where the cutting loop stops, and what the final null overwrites: only with 8-byte slots
      a link, that of the last slot. */
  lemma CutEnd(link: map<int, int>, p: int, c: int, n: int)
    requires Class(c) && CutTo(link, p, c, n) && 0 < n && n * Sz(c) >= DATA - Sz(c) && (n - 1) * Sz(c) < DATA - Sz(c)
    ensures Cut(link[p + HEADER + DATA - Sz(c) := NULL], p, c)
  {
    CutCount(c, n);
    var l := link[p + HEADER + DATA - Sz(c) := NULL];
    hide Slots, Sz;
    forall k | 0 <= k < Slots(c) - 1 ensures SlotAddr(p, c, k) in l && l[SlotAddr(p, c, k)] == SlotAddr(p, c, k + 1) {
      LastPlace(c, k);
    }
    LastPlace(c, Slots(c) - 1);
  }

  lemma CutCount(c: int, n: int)
    requires Class(c) && n * Sz(c) >= DATA - Sz(c) && (n - 1) * Sz(c) < DATA - Sz(c)
    ensures if c == 3 then n == Slots(c) - 1 else n == Slots(c)
    ensures Slots(c) >= 1
  {
  }

  lemma LastPlace(c: int, k: int)
    requires Class(c) && 0 <= k < Slots(c)
    ensures k * Sz(c) == DATA - Sz(c) <==> c == 3 && k == Slots(c) - 1
  {
  }

  lemma SlotCount(c: int, n: int)
    requires Class(c) && 0 <= n && n * Sz(c) < DATA - Sz(c)
    ensures n < Slots(c)
  {
  }

  /** The link at `a`, if there is one, is as it was. */
  ghost predicate SameLink(link: map<int, int>, link': map<int, int>, a: int) {
    (a in link' <==> a in link) && (a in link' ==> link'[a] == link[a])
  }

  /** How the chain of a cut page ends: with a null in the last of the slots of 8 bytes, and
      otherwise past the last slot, in a word that the cutting never writes. */
  ghost predicate ChainEnd(link: map<int, int>, link': map<int, int>, p: int, c: int) {
    var last, past := SlotAddr(p, c, Slots(c) - 1), SlotAddr(p, c, Slots(c));
    last in link' && if c == 3 then link'[last] == NULL else link'[last] == past && SameLink(link, link', past)
  }

  /** The null goes into the last slot, to its first word only when slots have 8 bytes. */
  lemma NullPlace(p: int, c: int)
    requires Class(c)
    ensures var a, last := p + HEADER + DATA - Sz(c), SlotAddr(p, c, Slots(c) - 1);
      last <= a < last + Sz(c) && (a == last <==> c == 3) && a != SlotAddr(p, c, Slots(c))
  {
  }

  // ----- the pages of all classes

  /** Twelve lists of pages with free slots, and twelve of pages that have been full. */
  datatype Slab = Slab(headers: map<int, Header>, link: map<int, int>, cls: map<int, int>,
                       chains: map<int, seq<int>>, outs: map<int, set<int>>, was: set<int>,
                       partial: seq<int>, full: seq<int>, pl: seq<seq<int>>, fl: seq<seq<int>>)

  ghost predicate ListOk(headers: map<int, Header>, head: int, xs: seq<int>) {
    && head == (if xs == [] then NULL else xs[0]) && Distinct(xs)
    && forall i :: 0 <= i < |xs| ==> NextOk(headers, xs, i)
  }

  ghost predicate NextOk(headers: map<int, Header>, xs: seq<int>, i: int)
    requires 0 <= i < |xs|
  {
    xs[i] in headers && headers[xs[i]].next == if i + 1 < |xs| then xs[i + 1] else NULL
  }

  ghost predicate PagesOk(s: Slab) {
    && s.cls.Keys == s.chains.Keys == s.outs.Keys == s.headers.Keys
    && forall p :: p in s.headers ==> PageOk(s.headers[p], s.link, p, s.cls[p], s.chains[p], s.outs[p])
  }

  ghost predicate ListsOk(s: Slab) {
    && |s.partial| == |s.full| == |s.pl| == |s.fl| == 12
    && (forall c :: 0 <= c < 12 ==> ListOk(s.headers, s.partial[c], s.pl[c]) && ListOk(s.headers, s.full[c], s.fl[c]))
    && (forall c, x :: 0 <= c < 12 && x in s.pl[c] ==>
          x in s.headers && x in s.cls && s.cls[x] == c && x !in s.was && x in s.chains && s.chains[x] != [])
    && (forall c, x :: 0 <= c < 12 && x in s.fl[c] ==> x in s.headers && x in s.cls && s.cls[x] == c && x in s.was)
  }

  ghost predicate SlabOk(s: Slab) {
    PagesOk(s) && ListsOk(s)
  }

  /** Slot `k` of page `p` is handed out. */
  predicate Out(s: Slab, p: int, k: int) {
    p in s.outs && k in s.outs[p]
  }

  lemma ListSame(a: map<int, Header>, b: map<int, Header>, head: int, xs: seq<int>)
    requires ListOk(a, head, xs)
    requires forall x :: x in xs && x in a ==> x in b && b[x].next == a[x].next
    ensures ListOk(b, head, xs)
  {
    forall i | 0 <= i < |xs| ensures NextOk(b, xs, i) {
      var x := xs[i];
      assert NextOk(a, xs, i);
      assert x in xs && x in a;
    }
  }

  /** Taking the head slot of page `p`. */
  function Taken(s: Slab, p: int): Slab
    requires p in s.headers && p in s.chains && p in s.outs && s.chains[p] != [] && s.headers[p].freeHead in s.link
  {
    var h := s.headers[p];
    s.(headers := s.headers[p := h.(freeHead := s.link[h.freeHead], alloc := h.alloc + 1)],
       chains := s.chains[p := s.chains[p][1..]],
       outs := s.outs[p := s.outs[p] + {s.chains[p][0]}])
  }

  /** Page `p`, first on its partial list, goes to the front of the full list. */
  function Filled(s: Slab, p: int): Slab
    requires p in s.headers && p in s.cls && |s.partial| == |s.full| == |s.pl| == |s.fl| == 12
    requires 0 <= s.cls[p] < 12 && s.pl[s.cls[p]] != []
  {
    var c := s.cls[p];
    s.(headers := s.headers[p := s.headers[p].(next := s.full[c])], was := s.was + {p},
       partial := s.partial[c := s.headers[p].next], full := s.full[c := p],
       pl := s.pl[c := s.pl[c][1..]], fl := s.fl[c := [p] + s.fl[c]])
  }

  lemma TailIn(xs: seq<int>)
    requires xs != [] && Distinct(xs)
    ensures Distinct(xs[1..]) && forall x :: x in xs[1..] <==> x in xs && x != xs[0]
  {
    assert xs == [xs[0]] + xs[1..];
  }

  lemma ListTail(headers: map<int, Header>, head: int, xs: seq<int>)
    requires ListOk(headers, head, xs) && xs != []
    ensures head in headers && ListOk(headers, headers[head].next, xs[1..])
  {
    TailIn(xs);
    var t := xs[1..];
    assert NextOk(headers, xs, 0);
    forall i | 0 <= i < |t| ensures NextOk(headers, t, i) {
      assert NextOk(headers, xs, i + 1);
    }
  }

  lemma ListCons(headers: map<int, Header>, head: int, xs: seq<int>, p: int)
    requires ListOk(headers, head, xs) && p in headers && headers[p].next == head && p !in xs
    ensures ListOk(headers, p, [p] + xs)
  {
    var ys := [p] + xs;
    forall i | 0 <= i < |ys| ensures NextOk(headers, ys, i) {
      if i > 0 { assert NextOk(headers, xs, i - 1); }
    }
  }

  /** Taking a slot; the page is then the only one that may stand in a partial list without a
      free slot. */
  lemma TakenPages(s: Slab, p: int)
    requires PagesOk(s) && p in s.headers && s.chains[p] != []
    ensures s.headers[p].freeHead in s.link && PagesOk(Taken(s, p))
    ensures s.headers[p].freeHead == SlotAddr(p, s.cls[p], s.chains[p][0])
    ensures s.headers[p].freeHead != NULL && !Out(s, p, s.chains[p][0]) && 0 <= s.chains[p][0] < Slots(s.cls[p])
    ensures Class(s.cls[p]) && 0 <= p && p % PAGE == 0
  {
    PageTake(s.headers[p], s.link, p, s.cls[p], s.chains[p], s.outs[p]);
  }

  /** Lists whose pages keep their successors and stay chained are right as before. */
  lemma SameLists(s: Slab, t: Slab)
    requires ListsOk(s) && t.partial == s.partial && t.full == s.full && t.pl == s.pl && t.fl == s.fl
    requires t.cls == s.cls && t.was == s.was
    requires forall x :: x in s.headers ==> x in t.headers && t.headers[x].next == s.headers[x].next
    requires forall x :: x in s.chains && s.chains[x] != [] ==> x in t.chains && t.chains[x] != []
    ensures ListsOk(t)
  {
    hide ListOk;
    forall c | 0 <= c < 12 ensures ListOk(t.headers, t.partial[c], t.pl[c]) && ListOk(t.headers, t.full[c], t.fl[c]) {
      ListSame(s.headers, t.headers, s.partial[c], s.pl[c]);
      ListSame(s.headers, t.headers, s.full[c], s.fl[c]);
    }
  }

  lemma TakenLists(s: Slab, p: int)
    requires ListsOk(s) && PagesOk(s) && p in s.headers && s.chains[p] != [] && s.headers[p].freeHead in s.link
    requires s.chains[p][1..] != []
    ensures ListsOk(Taken(s, p))
  {
    hide ListsOk, PageOk;
    SameLists(s, Taken(s, p));
  }

  lemma TakenFilledLists(s: Slab, p: int)
    requires ListsOk(s) && PagesOk(s) && p in s.headers && s.chains[p] != [] && s.headers[p].freeHead in s.link
    requires 0 <= s.cls[p] < 12 && s.pl[s.cls[p]] != [] && s.pl[s.cls[p]][0] == p
    ensures ListsOk(Filled(Taken(s, p), p))
  {
    hide ListOk, PageOk, Distinct;
    var c, t := s.cls[p], Filled(Taken(s, p), p);
    assert p in s.pl[c];
    assert ListOk(s.headers, s.partial[c], s.pl[c]) && ListOk(s.headers, s.full[c], s.fl[c]);
    TailIn(s.pl[c]) by { ListDistinct(s.headers, s.partial[c], s.pl[c]); }
    ListHead(s.headers, s.partial[c], s.pl[c]);
    ListTail(s.headers, s.partial[c], s.pl[c]);
    forall d | 0 <= d < 12 ensures ListOk(t.headers, t.partial[d], t.pl[d]) && ListOk(t.headers, t.full[d], t.fl[d]) {
      NotThere(s, p, d);
      ListSame(s.headers, t.headers, s.full[d], s.fl[d]);
      if d == c {
        ListSame(s.headers, t.headers, s.headers[p].next, s.pl[c][1..]);
        ListCons(t.headers, s.full[c], s.fl[c], p);
      } else {
        ListSame(s.headers, t.headers, s.partial[d], s.pl[d]);
      }
    }
  }

  lemma NotThere(s: Slab, p: int, d: int)
    requires ListsOk(s) && p in s.cls && 0 <= s.cls[p] < 12 && p in s.pl[s.cls[p]] && 0 <= d < 12
    ensures p !in s.fl[d] && (d != s.cls[p] ==> p !in s.pl[d])
  {
    hide ListOk;
  }

  lemma ListDistinct(headers: map<int, Header>, head: int, xs: seq<int>)
    requires ListOk(headers, head, xs)
    ensures Distinct(xs)
  {
  }

  lemma ListHead(headers: map<int, Header>, head: int, xs: seq<int>)
    requires ListOk(headers, head, xs)
    ensures head == NULL || (xs != [] && head == xs[0] && head in headers)
    ensures xs != [] ==> head == xs[0]
  {
    if xs != [] { assert NextOk(headers, xs, 0); }
  }

  lemma FilledPages(s: Slab, p: int)
    requires PagesOk(s) && p in s.headers && |s.partial| == |s.full| == |s.pl| == |s.fl| == 12
    requires 0 <= s.cls[p] < 12 && s.pl[s.cls[p]] != []
    ensures PagesOk(Filled(s, p))
  {
  }

  // ----- giving a slot back

  function Given(s: Slab, p: int, k: int): Slab
    requires p in s.headers && p in s.cls && p in s.chains && p in s.outs
  {
    var a := SlotAddr(p, s.cls[p], k);
    s.(headers := s.headers[p := s.headers[p].(freeHead := a, alloc := s.headers[p].alloc - 1)],
       link := s.link[a := s.headers[p].freeHead],
       chains := s.chains[p := [k] + s.chains[p]], outs := s.outs[p := s.outs[p] - {k}])
  }

  lemma GivenPages(s: Slab, p: int, k: int)
    requires PagesOk(s) && p in s.headers && Out(s, p, k)
    ensures PagesOk(Given(s, p, k))
  {
    hide PageOk, SlotAddr;
    var t := Given(s, p, k);
    var a := SlotAddr(p, s.cls[p], k);
    PageGive(s.headers[p], s.link, p, s.cls[p], s.chains[p], s.outs[p], k);
    forall q | q in t.headers ensures PageOk(t.headers[q], t.link, q, t.cls[q], t.chains[q], t.outs[q]) {
      if q != p {
        OtherPage(s, p, k, q);
        PageFrame(s.headers[q], s.link, q, s.cls[q], s.chains[q], s.outs[q], a, s.headers[p].freeHead);
      }
    }
  }

  lemma GivenLists(s: Slab, p: int, k: int)
    requires ListsOk(s) && PagesOk(s) && p in s.headers
    ensures ListsOk(Given(s, p, k))
  {
    hide ListsOk, PageOk, SlotAddr;
    SameLists(s, Given(s, p, k));
  }

  lemma GivenOk(s: Slab, p: int, k: int)
    requires SlabOk(s) && p in s.headers && Out(s, p, k)
    ensures p in s.cls && p in s.chains && p in s.outs
    ensures SlabOk(Given(s, p, k)) && Class(s.cls[p]) && 0 <= p && p % PAGE == 0 && 0 <= k < Slots(s.cls[p])
  {
    hide ListsOk, Given;
    GivenPages(s, p, k);
    GivenLists(s, p, k);
    PageFacts(s, p, k);
  }

  lemma PageFacts(s: Slab, p: int, k: int)
    requires PagesOk(s) && p in s.headers && Out(s, p, k)
    ensures Class(s.cls[p]) && 0 <= p && p % PAGE == 0 && 0 <= k < Slots(s.cls[p])
  {
  }

  lemma OtherPage(s: Slab, p: int, k: int, q: int)
    requires PagesOk(s) && p in s.headers && Out(s, p, k) && q in s.headers && q != p
    ensures forall m :: m in s.chains[q] ==> SlotAddr(q, s.cls[q], m) != SlotAddr(p, s.cls[p], k)
  {
    PageFacts(s, p, k);
    hide SlotAddr, Slots;
    forall m | m in s.chains[q] ensures SlotAddr(q, s.cls[q], m) != SlotAddr(p, s.cls[p], k) {
      SlotsApart(p, s.cls[p], k, q, s.cls[q], m);
      SlotSize(s.cls[p]);
      SlotSize(s.cls[q]);
    }
  }

  lemma SlotSize(c: int)
    ensures Sz(c) >= 8
  {
  }

  // ----- a new page

  ghost function Added(s: Slab, p: int, c: int, link: map<int, int>): Slab
    requires |s.partial| == |s.pl| == 12 && 0 <= c < 12
  {
    s.(headers := s.headers[p := Header(SlotAddr(p, c, 0), 0, Slots(c), s.partial[c])], link := link,
       cls := s.cls[p := c], chains := s.chains[p := UpTo(Slots(c))], outs := s.outs[p := {}], was := s.was - {p},
       partial := s.partial[c := p], pl := s.pl[c := [p] + s.pl[c]])
  }

  /** Links outside page `p` are as they were. */
  ghost predicate SameOutside(link: map<int, int>, link': map<int, int>, p: int) {
    forall a :: a in link && !(p <= a < p + PAGE) ==> a in link' && link'[a] == link[a]
  }

  lemma AddedPage(s: Slab, link': map<int, int>, p: int, q: int)
    requires PagesOk(s) && p !in s.headers && 0 <= p && p % PAGE == 0 && SameOutside(s.link, link', p) && q in s.headers
    ensures PageOk(s.headers[q], link', q, s.cls[q], s.chains[q], s.outs[q])
  {
    assert PageOk(s.headers[q], s.link, q, s.cls[q], s.chains[q], s.outs[q]);
    hide SlotAddr, Slots;
    forall k | k in s.chains[q] ensures SlotAddr(q, s.cls[q], k) in link' && link'[SlotAddr(q, s.cls[q], k)] == s.link[SlotAddr(q, s.cls[q], k)] {
      SlotInside(q, s.cls[q], k);
      SlotSize(s.cls[q]);
      PagesApart(p, q);
    }
    forall i | 0 <= i < |s.chains[q]| ensures s.chains[q][i] in s.chains[q] {}
  }

  lemma PagesApart(p: int, q: int)
    requires p % PAGE == 0 && q % PAGE == 0 && p != q
    ensures p + PAGE <= q || q + PAGE <= p
  {
  }

  lemma AddedOk(s: Slab, p: int, c: int, link': map<int, int>)
    requires SlabOk(s) && p !in s.headers && 0 <= p && p % PAGE == 0 && Class(c)
    requires SameOutside(s.link, link', p) && Cut(link', p, c)
    ensures SlabOk(Added(s, p, c, link'))
  {
    hide ListOk, PageOk, SlotAddr, Slots, SameOutside, Cut;
    var t := Added(s, p, c, link');
    FreshPage(t.headers[p], link', p, c);
    forall q | q in t.headers ensures PageOk(t.headers[q], t.link, q, t.cls[q], t.chains[q], t.outs[q]) {
      if q != p { AddedPage(s, link', p, q); }
    }
    AddedLists(s, p, c, link');
  }

  lemma AddedLists(s: Slab, p: int, c: int, link': map<int, int>)
    requires ListsOk(s) && p !in s.headers && Class(c) && UpTo(Slots(c)) != []
    ensures ListsOk(Added(s, p, c, link'))
  {
    hide ListOk, SlotAddr, Slots, UpTo;
    var t := Added(s, p, c, link');
    assert p !in s.pl[c];
    forall d | 0 <= d < 12 ensures ListOk(t.headers, t.partial[d], t.pl[d]) && ListOk(t.headers, t.full[d], t.fl[d]) {
      ListSame(s.headers, t.headers, s.full[d], s.fl[d]);
      ListSame(s.headers, t.headers, s.partial[d], s.pl[d]);
      if d == c { ListCons(t.headers, s.partial[c], s.pl[c], p); }
    }
  }

  // ----- rounding sizes

  /** The class of a request. */
  ghost function ClassOf(size: nat): (c: nat)
    ensures 3 <= c
  {
    CeilLogLeast(if size < 8 then 8 else size, 2);
    assert Pow2(2) == 4;
    CeilLog(if size < 8 then 8 else size)
  }

  lemma SmallClass(size: nat)
    ensures Pow2(ClassOf(size)) >= PAGE <==> ClassOf(size) >= 12
    ensures size <= Pow2(ClassOf(size))
    ensures ClassOf(size) < 12 ==> Class(ClassOf(size)) && Sz(ClassOf(size)) == Pow2(ClassOf(size))
  {
    hide Pow2;
    var c := ClassOf(size);
    Big();
    if c >= 12 { Pow2Monotone(12, c); } else { Pow2Monotone(c, 11); SzIsPow2(c); }
  }

  /** The class is the least one, from slots of 8 bytes on, whose size is enough; more than 2048
      bytes are a large request. */
  lemma ClassLeast(size: nat)
    ensures forall c: nat :: c >= 3 ==> (size <= Pow2(c) <==> ClassOf(size) <= c)
    ensures ClassOf(size) >= 12 <==> size > 2048
  {
    hide Pow2, CeilLog;
    Big();
    var m := if size < 8 then 8 else size;
    forall c: nat | c >= 3 ensures size <= Pow2(c) <==> ClassOf(size) <= c {
      CeilLogLeast(m, c);
      Pow2Monotone(3, c);
    }
  }

  lemma Big()
    ensures Pow2(11) == 2048 && Pow2(12) == 4096 && Pow2(4) == 16 && Pow2(3) == 8
  {
    assert Pow2(4) == 16;
    assert Pow2(8) == 2 * Pow2(7) && Pow2(7) == 2 * Pow2(6) && Pow2(6) == 2 * Pow2(5) && Pow2(5) == 2 * Pow2(4);
    assert Pow2(12) == 2 * Pow2(11) && Pow2(11) == 2 * Pow2(10) && Pow2(10) == 2 * Pow2(9) && Pow2(9) == 2 * Pow2(8);
  }

  lemma CeilLogUnique(x: nat, c: nat)
    requires x <= Pow2(c) && (c > 0 ==> Pow2(c - 1) < x)
    ensures CeilLog(x) == c
  {
    CeilLogLeast(x, c);
    if c > 0 { CeilLogLeast(x, c - 1); }
  }

  function Max3(a: nat, b: nat, m: nat): nat {
    if b > a then (if b > m then b else m) else (if a > m then a else m)
  }

  /** The buddy allocator rounds a large request and its rounded size to the same order, although
      it aligns the two differently. */
  lemma SameOrder(size: nat, min: nat)
    requires ClassOf(size) >= 12
    ensures CeilLog(Max3(size, if size >= 4096 then 4096 else 16, Pow2(min))) ==
            CeilLog(Max3(Pow2(ClassOf(size)), 4096, Pow2(min)))
  {
    var c := ClassOf(size);
    Big();
    hide Pow2, CeilLog;
    assert size > 8 by { if size <= 8 { CeilLogUnique8(); } }
    assert size <= Pow2(c) && Pow2(c - 1) < size by { CeilBounds(size); }
    Pow2Monotone(12, c);
    Pow2Monotone(11, c - 1);
    var y := Max3(size, if size >= 4096 then 4096 else 16, Pow2(min));
    var z := Max3(Pow2(c), 4096, Pow2(min));
    if min <= c {
      Pow2Monotone(min, c);
      assert z == Pow2(c) && y <= Pow2(c) && Pow2(c - 1) < y;
      CeilLogUnique(y, c);
      CeilLogUnique(z, c);
    } else {
      Pow2Monotone(c, min);
      assert y == z == Pow2(min);
    }
  }

  lemma CeilLogUnique8()
    ensures CeilLog(8) == 3
  {
    assert Pow2(3) == 8 && Pow2(2) == 4;
    CeilLogUnique(8, 3);
  }

  lemma CeilBounds(size: nat)
    requires size > 8
    ensures var c := CeilLog(size); c > 0 && size <= Pow2(c) && Pow2(c - 1) < size
  {
  }
}
