/** The arena: bump blocks in a chain, free lists by size class threaded through the freed blocks
    themselves, and marks that give back everything carved since. */
module BumpArena {

  import opened Common

  // ------------------------------------------------------------------ size classes

  const SMALL := 64
  const BIG := 12
  const CLASSES := SMALL + BIG
  const SMALL_MAX := 1024

  function Pow2(k: nat): nat {
    if k == 0 then 1 else 2 * Pow2(k - 1)
  }

  /** 16-byte steps up to 1024, then powers of two from 2 KiB: what a block of the class holds. */
  function ClassSize(c: nat): nat {
    if c < SMALL then 16 * (c + 1) else 2048 * Pow2(c - SMALL)
  }

  /** The smallest class that holds `n`. */
  ghost predicate Fitting(n: nat, c: nat) {
    c < CLASSES && n <= ClassSize(c) && (c > 0 ==> ClassSize(c - 1) < n)
  }

  lemma {:induction false} ClassesGrow(c: nat, d: nat)
    requires c < d
    ensures ClassSize(c) < ClassSize(d)
    decreases d
  {
    if c + 1 < d {
      ClassesGrow(c, d - 1);
    }
    if d == SMALL {
      assert Pow2(0) == 1;
    } else if d > SMALL {
      PowersPositive(d - 1 - SMALL);
    }
  }

  /** The twelfth big class ends at 4 MiB. */
  lemma TopClass()
    ensures ClassSize(CLASSES - 1) == 4 * 1024 * 1024
  {
    assert Pow2(3) == 8;
    assert Pow2(7) == 16 * Pow2(3);
    assert Pow2(11) == 16 * Pow2(7);
  }

  lemma {:induction false} PowersPositive(k: nat)
    ensures Pow2(k) > 0
  {
    if k > 0 {
      PowersPositive(k - 1);
    }
  }

  /** What is carved for a request: nothing, the full size of its class, or exactly the request. */
  ghost predicate Carves(n: nat, size: nat) {
    if n == 0 then size == 0
    else if n <= ClassSize(CLASSES - 1) then exists c: nat :: Fitting(n, c) && size == ClassSize(c)
    else size == n
  }

  /** A block of `size` cells can serve a request for `asked`, and whatever it is freed at up to that,
      it holds what the class it is then filed under promises. */
  ghost predicate Suits(asked: nat, size: nat) {
    asked <= size && forall n: nat, c: nat :: 0 < n <= asked && Fitting(n, c) ==> ClassSize(c) <= size
  }

  /** Rounding never files a carved block too high. */
  lemma CarvedSuits(asked: nat, size: nat)
    requires Carves(asked, size)
    ensures Suits(asked, size)
  {
    forall n: nat, c: nat | 0 < n <= asked && Fitting(n, c) ensures ClassSize(c) <= size {
      if asked <= ClassSize(CLASSES - 1) {
        var d: nat :| Fitting(asked, d) && size == ClassSize(d);
        NotHigher(n, c, asked, d);
      } else if c < CLASSES - 1 {
        ClassesGrow(c, CLASSES - 1);
      }
    }
  }

  lemma NotHigher(n: nat, c: nat, m: nat, d: nat)
    requires n <= m && Fitting(n, c) && Fitting(m, d)
    ensures c <= d && ClassSize(c) <= ClassSize(d)
  {
    if d < c - 1 {
      ClassesGrow(d, c - 1);
    } else if c < d {
      ClassesGrow(c, d);
    }
  }

  /** Nor a recycled one, which may be larger than its class. */
  lemma RecycledSuits(asked: nat, c: nat, size: nat)
    requires Fitting(asked, c) && ClassSize(c) <= size
    ensures Suits(asked, size)
  {
    forall n: nat, d: nat | 0 < n <= asked && Fitting(n, d) ensures ClassSize(d) <= size {
      NotHigher(n, d, asked, c);
    }
  }

  /** The class for a size: rounding to 16 up to 1024, above that a search of the powers of two. */
  method SizeClass(n: nat) returns (c: Option<nat>)
    requires n > 0
    ensures c.Some? ==> Fitting(n, c.value)
    ensures c.None? <==> n > ClassSize(CLASSES - 1)
  {
    if n <= SMALL_MAX {
      SmallFits(n);
      return Some((n + 15) / 16 - 1);
    }
    var i, size := 0, 2048;
    while i < BIG
      invariant i <= BIG && size == ClassSize(SMALL + i) && ClassSize(SMALL + i - 1) < n
    {
      if n <= size {
        if i < BIG - 1 {
          ClassesGrow(SMALL + i, CLASSES - 1);
        }
        return Some(SMALL + i);
      }
      size := size * 2;
      i := i + 1;
    }
    c := None;
  }

  lemma SmallFits(n: nat)
    requires 0 < n <= SMALL_MAX
    ensures Fitting(n, (n + 15) / 16 - 1) && n <= ClassSize(CLASSES - 1)
  {
    ClassesGrow(SMALL - 1, CLASSES - 1);
  }

  // ------------------------------------------------------------------ memory

  /** An address: a block got from malloc, and an offset into it. */
  datatype Ptr = Ptr(blk: nat, off: nat)

  /** What a cell holds: bytes of the program, or the first cell of a header or of a link of a free
      list. The rest of a header's or link's footprint is `Rest`. */
  datatype Cell = Data(v: int) | Header(persist: bool) | Link(next: Option<Ptr>) | Rest

  /** Memory by address; what was never written is missing. */
  type Memory = map<Ptr, Cell>

  const HEADER := 16
  const WORD := 8

  predicate Inside(x: Ptr, p: Ptr, n: int) {
    x.blk == p.blk && p.off <= x.off < p.off + n
  }

  /** Writing a word of `n` cells at `p`. */
  function Put(mem: Memory, p: Ptr, n: nat, c: Cell): (m: Memory)
    requires n > 0
    ensures p in m && m[p] == c
    ensures forall x :: !Inside(x, p, n) ==> (x in m <==> x in mem) && (x in mem ==> m[x] == mem[x])
  {
    var cells := map o: nat | p.off <= o < p.off + n :: Ptr(p.blk, o) := if o == p.off then c else Rest;
    assert forall x: Ptr :: Inside(x, p, n) ==> x == Ptr(p.blk, x.off);
    assert Ptr(p.blk, p.off) in cells && cells[Ptr(p.blk, p.off)] == c;
    mem + cells
  }

  function HeaderOf(p: Ptr): Ptr {
    if p.off >= HEADER then Ptr(p.blk, p.off - HEADER) else p
  }

  /** Two blocks, headers included, do not overlap. */
  predicate Apart(p: Ptr, n: nat, q: Ptr, m: nat) {
    p.blk == q.blk ==> p.off + n + HEADER <= q.off || q.off + m + HEADER <= p.off
  }

  /** The cells of a block, its own header included, are what they were. */
  ghost predicate Untouched(mem: Memory, mem': Memory, p: Ptr, n: nat) {
    forall x :: Inside(x, HeaderOf(p), n + HEADER) ==> (x in mem <==> x in mem') && (x in mem ==> mem[x] == mem'[x])
  }

  // ------------------------------------------------------------------ the invariant

  datatype Block = Block(cap: nat, used: nat)

  /** Everything carved lies in the chain's blocks below `used`, with a header before it, and apart. */
  ghost predicate Carved(blocks: seq<Block>, chain: seq<nat>, caps: map<Ptr, nat>) {
    && Distinct(chain)
    && (forall b :: b in chain ==> b < |blocks| && blocks[b].used <= blocks[b].cap)
    && (forall p :: p in caps ==> p.blk in chain && HEADER <= p.off && p.off + caps[p] <= blocks[p.blk].used)
    && (forall p, q :: p in caps && q in caps && p != q ==> Apart(p, caps[p], q, caps[q]))
  }

  /** Spare blocks are not in the chain. */
  ghost predicate Spared(blocks: seq<Block>, chain: seq<nat>, spare: seq<nat>) {
    && Distinct(spare)
    && forall b :: b in spare ==> b < |blocks| && b !in chain
  }

  /** Blocks handed out hold what was asked for; free ones hold what their class promises. */
  ghost predicate Sized(caps: map<Ptr, nat>, live: map<Ptr, nat>, free: map<Ptr, nat>) {
    && (forall p :: p in live ==> p in caps && Suits(live[p], caps[p]))
    && (forall p :: p in free ==> p in caps && p !in live && free[p] < CLASSES && ClassSize(free[p]) <= caps[p])
  }

  function At<T>(s: seq<T>, k: nat): Option<T> {
    if k < |s| then Some(s[k]) else None
  }

  /** A list starts at `head` and each node's first word links to the next. */
  ghost predicate Thread(head: Option<Ptr>, l: seq<Ptr>, mem: Memory) {
    && head == At(l, 0)
    && forall k :: 0 <= k < |l| ==> l[k] in mem && mem[l[k]] == Link(At(l, k + 1))
  }

  ghost predicate Threaded(heads: seq<Option<Ptr>>, lists: seq<seq<Ptr>>, free: map<Ptr, nat>, mem: Memory) {
    && |heads| == |lists| == CLASSES
    && (forall c, k :: 0 <= c < |lists| && 0 <= k < |lists[c]| ==> lists[c][k] in free && free[lists[c][k]] == c)
    && forall c :: 0 <= c < |lists| ==> Distinct(lists[c]) && Thread(heads[c], lists[c], mem)
  }

  ghost predicate Headed(caps: map<Ptr, nat>, mem: Memory) {
    forall p :: p in caps ==> HeaderOf(p) in mem && mem[HeaderOf(p)] == Header(false)
  }

  /** Persistent blocks are mallocs of their own. */
  ghost predicate Kept(kept: map<Ptr, nat>, blocks: seq<Block>, chain: seq<nat>, spare: seq<nat>, mem: Memory) {
    forall p :: p in kept ==>
      && p.off == HEADER && p.blk < |blocks| && p.blk !in chain && p.blk !in spare
      && HEADER + kept[p] <= blocks[p.blk].cap
      && HeaderOf(p) in mem && mem[HeaderOf(p)] == Header(true)
  }

  /** What the program sees: memory, the chain of blocks (oldest first), the spare blocks, and the heads
      of the free lists. */
  datatype Image = Image(blocks: seq<Block>, chain: seq<nat>, spare: seq<nat>, mem: Memory, heads: seq<Option<Ptr>>)

  /** What it does not write down: every block carved with its capacity, what is handed out and for how
      much (`kept` is persistent), and which freed blocks are in which class's list. */
  datatype Books = Books(caps: map<Ptr, nat>, live: map<Ptr, nat>, kept: map<Ptr, nat>, free: map<Ptr, nat>,
                         lists: seq<seq<Ptr>>)

  ghost predicate Inv(im: Image, bk: Books) {
    && Carved(im.blocks, im.chain, bk.caps)
    && Spared(im.blocks, im.chain, im.spare)
    && Sized(bk.caps, bk.live, bk.free)
    && Threaded(im.heads, bk.lists, bk.free, im.mem)
    && Headed(bk.caps, im.mem)
    && Kept(bk.kept, im.blocks, im.chain, im.spare, im.mem)
  }

  // ------------------------------------------------------------------ what the invariant means

  /** Every block the arena knows of, and all the cells after its header. */
  ghost predicate Known(bk: Books, p: Ptr) {
    p in bk.caps || p in bk.kept
  }

  ghost function Extent(bk: Books, p: Ptr): nat
    requires Known(bk, p)
  {
    if p in bk.caps then bk.caps[p] else bk.kept[p]
  }

  /** The cells of a block: its header and its extent. */
  ghost predicate Covers(bk: Books, p: Ptr, x: Ptr)
    requires Known(bk, p)
  {
    Inside(x, HeaderOf(p), HEADER + Extent(bk, p))
  }

  ghost predicate HandedOut(bk: Books, p: Ptr) {
    p in bk.live || p in bk.kept
  }

  ghost function SizeOf(bk: Books, p: Ptr): nat
    requires HandedOut(bk, p)
  {
    if p in bk.live then bk.live[p] else bk.kept[p]
  }

  /** The safety claim: a block handed out holds what was asked for and is apart, with its header, from
      every other block, handed out or free; and it is below what has not been carved yet. */
  lemma HandedOutApart(im: Image, bk: Books, p: Ptr, q: Ptr)
    requires Inv(im, bk) && HandedOut(bk, p)
    ensures Known(bk, p) && SizeOf(bk, p) <= Extent(bk, p)
    ensures p != q && (HandedOut(bk, q) || q in bk.free) ==> Known(bk, q) && Apart(p, Extent(bk, p), q, Extent(bk, q))
    ensures p.blk < |im.blocks| && p !in bk.free
    ensures p.blk in im.chain ==> p.off + Extent(bk, p) <= im.blocks[p.blk].used <= im.blocks[p.blk].cap
    ensures p.blk !in im.chain ==> p.blk !in im.spare
  {
    hide Threaded, Headed;
    if p != q && Known(bk, q) {
      AllApart(im, bk, p, q);
    }
  }

  lemma AllApart(im: Image, bk: Books, p: Ptr, q: Ptr)
    requires Inv(im, bk) && Known(bk, p) && Known(bk, q) && p != q
    ensures Apart(p, Extent(bk, p), q, Extent(bk, q))
  {
    hide Threaded, Headed, Sized;
    assert p == Ptr(p.blk, p.off) && q == Ptr(q.blk, q.off);
  }

  // ------------------------------------------------------------------ steps

  /** Writing away from all links and headers. */
  lemma QuietWrite(im: Image, bk: Books, mem': Memory)
    requires Inv(im, bk)
    requires forall p :: p in bk.free ==> (p in im.mem ==> p in mem' && mem'[p] == im.mem[p])
    requires forall p :: p in bk.caps || p in bk.kept ==>
      var h := HeaderOf(p); h in im.mem ==> h in mem' && mem'[h] == im.mem[h]
    ensures Inv(im.(mem := mem'), bk)
  {
    assert Threaded(im.heads, bk.lists, bk.free, mem') by {
      forall c | 0 <= c < |bk.lists| ensures Thread(im.heads[c], bk.lists[c], mem') {
        assert Thread(im.heads[c], bk.lists[c], im.mem);
      }
    }
  }

  /** Free blocks and those handed out are known, free ones not empty. */
  lemma FreeKnown(im: Image, bk: Books)
    requires Inv(im, bk)
    ensures forall q :: HandedOut(bk, q) ==> Known(bk, q) && SizeOf(bk, q) <= Extent(bk, q) && q !in bk.free
    ensures forall q :: q in bk.free ==> Known(bk, q) && Extent(bk, q) >= HEADER && Covers(bk, q, q)
  {
    hide Threaded, Headed;
    forall q | q in bk.free ensures bk.caps[q] >= HEADER {
      ClassPositive(bk.free[q]);
    }
  }

  /** A write that stays inside block `p`, header included, and leaves the header a header. */
  lemma WriteInside(im: Image, bk: Books, p: Ptr, mem': Memory)
    requires Inv(im, bk) && Known(bk, p) && p !in bk.free
    requires forall x :: !Covers(bk, p, x) ==>
      (x in mem' <==> x in im.mem) && (x in im.mem ==> mem'[x] == im.mem[x])
    requires var h := HeaderOf(p); h in im.mem ==> h in mem' && mem'[h] == im.mem[h]
    ensures Inv(im.(mem := mem'), bk)
    ensures forall q :: HandedOut(bk, q) && q != p ==> Untouched(im.mem, mem', q, SizeOf(bk, q))
  {
    hide Inv, Untouched;
    FreeKnown(im, bk);
    KeptApart(im, bk, p);
    forall q | HandedOut(bk, q) && q != p ensures Untouched(im.mem, mem', q, SizeOf(bk, q)) {
      OtherUntouched(im, bk, p, mem', q);
    }
    forall q | Known(bk, q) ensures q.off >= HEADER && Covers(bk, q, HeaderOf(q)) {
      Meet(im, bk, q, q, q);
    }
    QuietWrite(im, bk, mem');
  }

  /** What one block covers, no other does. */
  lemma KeptApart(im: Image, bk: Books, p: Ptr)
    requires Inv(im, bk) && Known(bk, p)
    ensures forall q, x :: Known(bk, q) && q != p && Covers(bk, q, x) ==> !Covers(bk, p, x)
  {
    hide Inv, Covers;
    forall q, x | Known(bk, q) && q != p && Covers(bk, q, x) ensures !Covers(bk, p, x) {
      Meet(im, bk, p, q, x);
    }
  }

  lemma OtherUntouched(im: Image, bk: Books, p: Ptr, mem': Memory, q: Ptr)
    requires Inv(im, bk) && Known(bk, p) && HandedOut(bk, q) && q != p
    requires forall x :: !Covers(bk, p, x) ==>
      (x in mem' <==> x in im.mem) && (x in im.mem ==> mem'[x] == im.mem[x])
    ensures Untouched(im.mem, mem', q, SizeOf(bk, q))
  {
    hide Inv;
    FreeKnown(im, bk);
    KeptApart(im, bk, p);
    forall x | Inside(x, HeaderOf(q), SizeOf(bk, q) + HEADER)
      ensures (x in im.mem <==> x in mem') && (x in im.mem ==> im.mem[x] == mem'[x])
    {
      assert Covers(bk, q, x);
    }
  }

  lemma Meet(im: Image, bk: Books, p: Ptr, q: Ptr, x: Ptr)
    requires Inv(im, bk) && Known(bk, p) && Known(bk, q)
    ensures p.off >= HEADER
    ensures p != q && Covers(bk, q, x) ==> !Covers(bk, p, x)
  {
    hide Threaded, Headed, Sized;
    if p != q {
      AllApart(im, bk, p, q);
    }
  }

  /** The program writes a byte of a block it was handed: no link, no header, no other block changes. */
  lemma ProgramWrites(im: Image, bk: Books, p: Ptr, o: nat, v: int)
    requires Inv(im, bk) && HandedOut(bk, p) && o < SizeOf(bk, p)
    ensures var mem' := im.mem[Ptr(p.blk, p.off + o) := Data(v)];
      && Inv(im.(mem := mem'), bk)
      && forall q :: HandedOut(bk, q) && q != p ==> Untouched(im.mem, mem', q, SizeOf(bk, q))
  {
    hide Inv;
    HandedOutApart(im, bk, p, p);
    Meet(im, bk, p, p, p);
    WriteInside(im, bk, p, im.mem[Ptr(p.blk, p.off + o) := Data(v)]);
  }

  lemma ClassPositive(c: nat)
    ensures ClassSize(c) >= 16
  {
    if c > 0 {
      ClassesGrow(0, c);
    }
  }

  /** A new block at the end of the chain: from malloc, */
  lemma ChainGrows(im: Image, bk: Books, cap: nat)
    requires Inv(im, bk)
    ensures Inv(im.(blocks := im.blocks + [Block(cap, 0)], chain := im.chain + [|im.blocks|]), bk)
  {
    hide Threaded, Headed, Sized, Apart;
    var blocks', chain' := im.blocks + [Block(cap, 0)], im.chain + [|im.blocks|];
    assert forall b :: b in chain' <==> b in im.chain || b == |im.blocks|;
    assert forall b :: b in im.chain ==> blocks'[b] == im.blocks[b];
    forall i | 0 <= i < |im.chain| ensures im.chain[i] != |im.blocks| {
      assert im.chain[i] in im.chain;
    }
  }

  /** or the first of the spares. */
  lemma SpareReused(im: Image, bk: Books)
    requires Inv(im, bk) && |im.spare| > 0
    ensures im.spare[0] < |im.blocks|
    ensures var b := im.spare[0];
      var blocks' := im.blocks[b := im.blocks[b].(used := 0)];
      Inv(im.(blocks := blocks', chain := im.chain + [b], spare := im.spare[1..]), bk)
  {
    hide Threaded, Headed, Sized, Apart;
    assert im.spare[0] in im.spare;
    assert forall b :: b in im.spare[1..] ==> b in im.spare && b != im.spare[0];
  }

  lemma CarvedMore(blocks: seq<Block>, chain: seq<nat>, caps: map<Ptr, nat>, b: nat, size: nat)
    requires Carved(blocks, chain, caps) && b in chain
    requires b < |blocks| && blocks[b].used + size + HEADER <= blocks[b].cap
    ensures var used := blocks[b].used;
      var p := Ptr(b, used + HEADER);
      && p !in caps
      && (forall q :: q in caps && q.blk == b ==> HEADER <= q.off && q.off + caps[q] <= used)
      && Carved(blocks[b := blocks[b].(used := used + size + HEADER)], chain, caps[p := size])
  {
    hide Distinct;
  }

  lemma SizedMore(caps: map<Ptr, nat>, live: map<Ptr, nat>, free: map<Ptr, nat>, p: Ptr, n: nat, size: nat)
    requires Sized(caps, live, free) && p !in caps && Carves(n, size)
    ensures Sized(caps[p := size], live[p := n], free)
  {
    CarvedSuits(n, size);
    hide Suits, Carves;
  }

  lemma AllBelow(im: Image, bk: Books, h: Ptr)
    requires Inv(im, bk) && h.blk in im.chain
    requires forall q :: q in bk.caps && q.blk == h.blk ==> HEADER <= q.off && q.off + bk.caps[q] <= h.off
    ensures forall q :: q in bk.caps || q in bk.kept ==> !Inside(HeaderOf(q), h, HEADER)
    ensures forall q :: q in bk.free ==> !Inside(q, h, HEADER)
    ensures forall q, x :: HandedOut(bk, q) && Inside(x, HeaderOf(q), SizeOf(bk, q) + HEADER) ==> !Inside(x, h, HEADER)
  {
    hide Threaded, Headed;
    forall q | q in bk.free ensures !Inside(q, h, HEADER) {
      ClassPositive(bk.free[q]);
    }
  }

  /** Writing a header above everything carved in a block changes nothing that matters. */
  lemma HeaderAbove(im: Image, bk: Books, b: nat, used: nat)
    requires Inv(im, bk) && b in im.chain
    requires forall q :: q in bk.caps && q.blk == b ==> HEADER <= q.off && q.off + bk.caps[q] <= used
    ensures var mem' := Put(im.mem, Ptr(b, used), HEADER, Header(false));
      && Inv(im.(mem := mem'), bk)
      && forall q :: HandedOut(bk, q) ==> Untouched(im.mem, mem', q, SizeOf(bk, q))
  {
    hide Put, Inv, HeaderOf;
    var h := Ptr(b, used);
    var mem' := Put(im.mem, h, HEADER, Header(false));
    AllBelow(im, bk, h);
    QuietWrite(im, bk, mem');
  }

  lemma CapsStay(blocks: seq<Block>, blocks': seq<Block>, chain: seq<nat>, spare: seq<nat>, kept: map<Ptr, nat>,
                 mem: Memory)
    requires Kept(kept, blocks, chain, spare, mem) && Spared(blocks, chain, spare)
    requires |blocks'| == |blocks| && forall b :: 0 <= b < |blocks| ==> blocks'[b].cap == blocks[b].cap
    ensures Kept(kept, blocks', chain, spare, mem) && Spared(blocks', chain, spare)
  {
  }

  lemma HeadedMore(caps: map<Ptr, nat>, mem: Memory, p: Ptr, size: nat)
    requires Headed(caps, mem) && HeaderOf(p) in mem && mem[HeaderOf(p)] == Header(false)
    ensures Headed(caps[p := size], mem)
  {
  }

  lemma NotHanded(im: Image, bk: Books, p: Ptr)
    requires Inv(im, bk) && p.blk in im.chain && p !in bk.caps
    ensures !HandedOut(bk, p) && p !in bk.free
  {
  }

  /** Carving `size` cells and a header from the block at the end of the chain. */
  lemma Carve(im: Image, bk: Books, b: nat, n: nat, size: nat)
    requires Inv(im, bk) && Carves(n, size) && b in im.chain && b < |im.blocks|
    requires im.blocks[b].used + size + HEADER <= im.blocks[b].cap
    ensures var used := im.blocks[b].used;
      var p := Ptr(b, used + HEADER);
      var im' := im.(blocks := im.blocks[b := im.blocks[b].(used := used + size + HEADER)],
                     mem := Put(im.mem, Ptr(b, used), HEADER, Header(false)));
      && Inv(im', bk.(caps := bk.caps[p := size], live := bk.live[p := n]))
      && p !in bk.caps && !HandedOut(bk, p)
      && forall q :: HandedOut(bk, q) ==> Untouched(im.mem, im'.mem, q, SizeOf(bk, q))
  {
    hide Threaded, Carved, Sized, Headed, Put, Untouched, Carves, Kept, Spared, HandedOut, Apart;
    var used := im.blocks[b].used;
    var p := Ptr(b, used + HEADER);
    var mem' := Put(im.mem, Ptr(b, used), HEADER, Header(false));
    CarvedMore(im.blocks, im.chain, bk.caps, b, size);
    HeaderAbove(im, bk, b, used);
    SizedMore(bk.caps, bk.live, bk.free, p, n, size);
    HeadedMore(bk.caps, mem', p, size);
    CapsStay(im.blocks, im.blocks[b := im.blocks[b].(used := used + size + HEADER)], im.chain, im.spare, bk.kept, mem');
    NotHanded(im, bk, p);
  }

  lemma ThreadPop(heads: seq<Option<Ptr>>, lists: seq<seq<Ptr>>, free: map<Ptr, nat>, mem: Memory, c: nat)
    requires Threaded(heads, lists, free, mem) && c < CLASSES && heads[c].Some?
    ensures |lists[c]| > 0 && heads[c] == Some(lists[c][0]) && heads[c].value in free && free[heads[c].value] == c
    ensures heads[c].value in mem && mem[heads[c].value] == Link(At(lists[c], 1))
    ensures Threaded(heads[c := At(lists[c], 1)], lists[c := lists[c][1..]], free - {heads[c].value}, mem)
  {
    assert Thread(heads[c], lists[c], mem);
    var heads', lists', free' := heads[c := At(lists[c], 1)], lists[c := lists[c][1..]], free - {heads[c].value};
    forall d | 0 <= d < |lists'| ensures Distinct(lists'[d]) && Thread(heads'[d], lists'[d], mem) {
      assert Thread(heads[d], lists[d], mem);
    }
    forall d, k | 0 <= d < |lists'| && 0 <= k < |lists'[d]| ensures lists'[d][k] in free' && free'[lists'[d][k]] == d {
      assert lists'[d][k] == lists[d][if d == c then k + 1 else k];
    }
  }

  lemma ThreadPush(heads: seq<Option<Ptr>>, lists: seq<seq<Ptr>>, free: map<Ptr, nat>, mem: Memory, c: nat, p: Ptr)
    requires Threaded(heads, lists, free, mem) && c < CLASSES && p !in free && p in mem && mem[p] == Link(heads[c])
    ensures Threaded(heads[c := Some(p)], lists[c := [p] + lists[c]], free[p := c], mem)
  {
    assert Thread(heads[c], lists[c], mem);
    var heads', lists', free' := heads[c := Some(p)], lists[c := [p] + lists[c]], free[p := c];
    forall d, k | 0 <= d < |lists'| && 0 <= k < |lists'[d]| ensures lists'[d][k] in free' && free'[lists'[d][k]] == d {
      assert d == c && k > 0 ==> lists'[c][k] == lists[c][k - 1];
    }
    forall d | 0 <= d < |lists'| ensures Distinct(lists'[d]) && Thread(heads'[d], lists'[d], mem) {
      assert Thread(heads[d], lists[d], mem);
    }
  }

  /** A block served from the head of its class's list: its first word says what the list is now. */
  lemma Recycle(im: Image, bk: Books, c: nat, n: nat)
    requires Inv(im, bk) && c < CLASSES && Fitting(n, c) && im.heads[c].Some?
    ensures var p := im.heads[c].value;
      && |bk.lists| == CLASSES && p in im.mem && im.mem[p].Link? && p in bk.caps && !HandedOut(bk, p) && HEADER <= p.off
      && var mem' := Put(im.mem, HeaderOf(p), HEADER, Header(false));
      && var l := bk.lists[c];
      && |l| > 0
      && Inv(im.(heads := im.heads[c := im.mem[p].next], mem := mem'),
             bk.(live := bk.live[p := n], free := bk.free - {p}, lists := bk.lists[c := l[1..]]))
      && forall q :: HandedOut(bk, q) ==> Untouched(im.mem, mem', q, SizeOf(bk, q))
  {
    hide Threaded, Carved, Headed, Kept, Spared, Put;
    ThreadSize(im, bk);
    var p := im.heads[c].value;
    ThreadPop(im.heads, bk.lists, bk.free, im.mem, c);
    RecycledSuits(n, c, bk.caps[p]);
    var bk' := bk.(live := bk.live[p := n], free := bk.free - {p}, lists := bk.lists[c := bk.lists[c][1..]]);
    var im' := im.(heads := im.heads[c := im.mem[p].next]);
    assert Inv(im', bk');
    Popped(im, bk, im', bk', p, n);
  }

  lemma Popped(im: Image, bk: Books, im': Image, bk': Books, p: Ptr, n: nat)
    requires Inv(im', bk') && p in bk'.caps && p !in bk'.free && im'.mem == im.mem && p !in bk.live
    requires bk'.live == bk.live[p := n] && bk'.kept == bk.kept && bk'.caps == bk.caps
    ensures !HandedOut(bk, p) && HEADER <= p.off
    ensures var mem' := Put(im.mem, HeaderOf(p), HEADER, Header(false));
      && Inv(im'.(mem := mem'), bk')
      && forall q :: HandedOut(bk, q) ==> Untouched(im.mem, mem', q, SizeOf(bk, q))
  {
    hide Threaded, Carved, Spared, Put, Sized, Untouched;
    var mem' := Put(im.mem, HeaderOf(p), HEADER, Header(false));
    NotKept(im', bk', p);
    WriteInside(im', bk', p, mem');
    forall q | HandedOut(bk, q) ensures Untouched(im.mem, mem', q, SizeOf(bk, q)) {
      assert HandedOut(bk', q) && q != p;
    }
  }

  lemma NotKept(im: Image, bk: Books, p: Ptr)
    requires Inv(im, bk) && p in bk.caps
    ensures p !in bk.kept && HEADER <= p.off
  {
  }

  /** A block given back, but in no list: too large for the classes. */
  lemma Dropped(im: Image, bk: Books, p: Ptr)
    requires Inv(im, bk) && p in bk.live
    ensures Inv(im, bk.(live := bk.live - {p}))
  {
    hide Threaded, Carved, Headed, Kept, Spared, Suits;
  }

  /** A block given back and filed under the class of the size it is freed at, linked through its own
      first word. */
  lemma Filed(im: Image, bk: Books, p: Ptr, n: nat, c: nat)
    requires Inv(im, bk) && p in bk.live && 0 < n <= bk.live[p] && Fitting(n, c)
    ensures |im.heads| == |bk.lists| == CLASSES
    ensures var mem' := Put(im.mem, p, WORD, Link(im.heads[c]));
      && Inv(im.(mem := mem', heads := im.heads[c := Some(p)]),
             bk.(live := bk.live - {p}, free := bk.free[p := c], lists := bk.lists[c := [p] + bk.lists[c]]))
      && forall q :: HandedOut(bk, q) && q != p ==> Untouched(im.mem, mem', q, SizeOf(bk, q))
  {
    hide Threaded, Carved, Headed, Kept, Spared, Put, Untouched;
    ThreadSize(im, bk);
    var mem' := Put(im.mem, p, WORD, Link(im.heads[c]));
    var bk1 := bk.(live := bk.live - {p});
    Dropped(im, bk, p);
    ClassPositive(c);
    Meet(im, bk1, p, p, p);
    assert p !in bk.free && ClassSize(c) <= bk.caps[p];
    WriteInside(im, bk1, p, mem');
    forall q | HandedOut(bk, q) && q != p ensures Untouched(im.mem, mem', q, SizeOf(bk, q)) {
      assert HandedOut(bk1, q) && SizeOf(bk1, q) == SizeOf(bk, q);
    }
    ThreadPush(im.heads, bk.lists, bk.free, mem', c, p);
  }

  lemma ThreadSize(im: Image, bk: Books)
    requires Inv(im, bk)
    ensures |im.heads| == |bk.lists| == CLASSES
  {
  }

  /** A persistent block: a malloc of its own, with a header that says so. */
  lemma Persist(im: Image, bk: Books, n: nat, room: nat)
    requires Inv(im, bk) && n <= room
    ensures var b := |im.blocks|;
      var p := Ptr(b, HEADER);
      var mem' := Put(im.mem, Ptr(b, 0), HEADER, Header(true));
      && Inv(im.(blocks := im.blocks + [Block(room + HEADER, 0)], mem := mem'), bk.(kept := bk.kept[p := n]))
      && !Known(bk, p) && !HandedOut(bk, p)
      && forall q :: HandedOut(bk, q) ==> Untouched(im.mem, mem', q, SizeOf(bk, q))
  {
    hide Put, Inv, HeaderOf;
    var b := |im.blocks|;
    var mem' := Put(im.mem, Ptr(b, 0), HEADER, Header(true));
    OldBlocks(im, bk);
    QuietWrite(im, bk, mem');
    KeptMore(im.(mem := mem'), bk, n, room);
  }

  lemma OldBlocks(im: Image, bk: Books)
    requires Inv(im, bk)
    ensures forall q :: Known(bk, q) || q in bk.free || HandedOut(bk, q) ==> q.blk < |im.blocks|
    ensures forall q :: HeaderOf(q).blk == q.blk
  {
    hide Threaded, Headed, Suits;
  }

  lemma KeptMore(im: Image, bk: Books, n: nat, room: nat)
    requires Inv(im, bk) && n <= room
    requires var h := Ptr(|im.blocks|, 0); h in im.mem && im.mem[h] == Header(true)
    ensures var p := Ptr(|im.blocks|, HEADER);
      Inv(im.(blocks := im.blocks + [Block(room + HEADER, 0)]), bk.(kept := bk.kept[p := n]))
  {
    hide Threaded, Headed, Sized, Apart, Distinct;
    var blocks' := im.blocks + [Block(room + HEADER, 0)];
    assert forall b :: 0 <= b < |im.blocks| ==> blocks'[b] == im.blocks[b];
  }

  lemma Released(im: Image, bk: Books, p: Ptr)
    requires Inv(im, bk) && p in bk.kept
    ensures Inv(im, bk.(kept := bk.kept - {p}))
  {
    hide Threaded, Carved, Headed, Sized, Spared;
  }

  // ------------------------------------------------------------------ marks

  /** Where the arena stood: the newest block of the chain and how far it was used. */
  datatype Mark = Mark(head: Option<nat>, used: nat)

  /** The only check a rewind makes is that the mark's block is in the chain. */
  predicate Accepted(m: Mark, chain: seq<nat>) {
    m.head.None? || m.head.value in chain
  }

  /** What the mark does not write down: how many blocks the chain had, what was handed out. */
  datatype Taken = Taken(depth: nat, before: set<Ptr>)

  /** A block lies wholly below a mark. */
  ghost predicate Under(p: Ptr, n: nat, chain: seq<nat>, d: nat, used: nat)
    requires d <= |chain|
  {
    p.blk in chain[..d] && (p.blk == chain[d - 1] ==> p.off + n <= used)
  }

  ghost predicate MarkOk(m: Mark, t: Taken, blocks: seq<Block>, chain: seq<nat>, caps: map<Ptr, nat>) {
    && t.depth <= |chain|
    && m.head == (if t.depth == 0 then None else Some(chain[t.depth - 1]))
    && (if t.depth == 0 then m.used == 0
        else var b := chain[t.depth - 1]; b < |blocks| && m.used <= blocks[b].used)
    && forall p :: p in t.before ==> p in caps && Under(p, caps[p], chain, t.depth, m.used)
  }

  /** Marks not yet rewound, oldest first: each lies at or above the ones before it. */
  ghost predicate Marked(marks: seq<Mark>, taken: seq<Taken>, blocks: seq<Block>, chain: seq<nat>, caps: map<Ptr,
      nat>) {
    && |marks| == |taken|
    && (forall i :: 0 <= i < |marks| ==> MarkOk(marks[i], taken[i], blocks, chain, caps))
    && forall i, j :: 0 <= i < j < |marks| ==>
         taken[i].depth <= taken[j].depth && (taken[i].depth == taken[j].depth ==> marks[i].used <= marks[j].used)
  }

  /** Carving more, or growing the chain, moves no mark. */
  lemma MarksStay(marks: seq<Mark>, taken: seq<Taken>, blocks: seq<Block>, chain: seq<nat>, caps: map<Ptr, nat>,
                  blocks': seq<Block>, chain': seq<nat>, caps': map<Ptr, nat>)
    requires Marked(marks, taken, blocks, chain, caps)
    requires chain <= chain' && |blocks| <= |blocks'|
    requires forall b :: b in chain && b < |blocks| ==> blocks[b].used <= blocks'[b].used
    requires forall p :: p in caps ==> p in caps' && caps'[p] == caps[p]
    ensures Marked(marks, taken, blocks', chain', caps')
  {
    forall i | 0 <= i < |marks| ensures MarkOk(marks[i], taken[i], blocks', chain', caps') {
      assert MarkOk(marks[i], taken[i], blocks, chain, caps);
      assert chain'[..taken[i].depth] == chain[..taken[i].depth];
    }
  }

  function Top(chain: seq<nat>): Option<nat> {
    if chain == [] then None else Some(chain[|chain| - 1])
  }

  lemma OneEach(marks: seq<Mark>, taken: seq<Taken>, im: Image, bk: Books)
    requires Marked(marks, taken, im.blocks, im.chain, bk.caps)
    ensures |marks| == |taken|
  {
  }

  /** A mark taken now is above everything handed out and above every earlier mark. */
  lemma MarkTaken(im: Image, bk: Books, marks: seq<Mark>, taken: seq<Taken>)
    requires Inv(im, bk) && Marked(marks, taken, im.blocks, im.chain, bk.caps)
    ensures im.chain != [] ==> im.chain[|im.chain| - 1] < |im.blocks|
    ensures im.chain != [] ==> var t := im.blocks[im.chain[|im.chain| - 1]]; t.used <= t.cap
    ensures var used := if im.chain == [] then 0 else im.blocks[im.chain[|im.chain| - 1]].used;
      Marked(marks + [Mark(Top(im.chain), used)], taken + [Taken(|im.chain|, bk.live.Keys)],
             im.blocks, im.chain, bk.caps)
  {
    hide Threaded, Headed, Spared, Kept, Suits;
    assert im.chain != [] ==> im.chain[|im.chain| - 1] in im.chain;
    var k, used := |marks|, if im.chain == [] then 0 else im.blocks[im.chain[|im.chain| - 1]].used;
    var marks', taken' := marks + [Mark(Top(im.chain), used)], taken + [Taken(|im.chain|, bk.live.Keys)];
    assert im.chain[..|im.chain|] == im.chain;
    forall i | 0 <= i <= k
      ensures MarkOk(marks'[i], taken'[i], im.blocks, im.chain, bk.caps)
      ensures taken'[i].depth <= |im.chain| && (taken'[i].depth == |im.chain| ==> marks'[i].used <= used)
    {
      if i < k {
        assert MarkOk(marks[i], taken[i], im.blocks, im.chain, bk.caps);
      }
    }
  }

  /** The memory of the arena after a rewind: the blocks above the mark are spare, the mark's block is
      used as far as it was, and the free lists are empty. */
  ghost function RewoundTo(im: Image, m: Mark, d: nat): Image
    requires d <= |im.chain| && (d > 0 ==> im.chain[d - 1] < |im.blocks|)
  {
    im.(blocks := if d == 0 then im.blocks
                  else im.blocks[im.chain[d - 1] := im.blocks[im.chain[d - 1]].(used := m.used)],
        chain := im.chain[..d], spare := im.chain[d..] + im.spare, heads := seq(CLASSES, _ => None))
  }

  ghost function Below(ps: map<Ptr, nat>, caps: map<Ptr, nat>, chain: seq<nat>, d: nat, used: nat): map<Ptr, nat>
    requires d <= |chain|
  {
    map p | p in ps && p in caps && Under(p, caps[p], chain, d, used) :: ps[p]
  }

  /** Only what lies below the mark is still carved and handed out. Persistent blocks are not touched. */
  ghost function BooksAt(bk: Books, chain: seq<nat>, m: Mark, d: nat): Books
    requires d <= |chain|
  {
    bk.(caps := Below(bk.caps, bk.caps, chain, d, m.used), live := Below(bk.live, bk.caps, chain, d, m.used),
        free := map[], lists := seq(CLASSES, _ => []))
  }

  /** `m` could be a mark of this arena: taken at some time, however long ago. */
  ghost predicate WasMark(m: Mark, blocks: seq<Block>) {
    m.head.Some? ==> m.head.value < |blocks| && m.used <= blocks[m.head.value].cap
  }

  /** How many blocks of the chain are at or below the one with id `head`; the newest are tried first. */
  ghost function Depth(chain: seq<nat>, head: Option<nat>): (d: nat)
    ensures d <= |chain|
    ensures head.None? ==> d == 0
    ensures head.Some? && head.value in chain ==> d > 0 && chain[d - 1] == head.value
  {
    if head.None? || chain == [] then 0
    else if chain[|chain| - 1] == head.value then |chain|
    else Depth(chain[..|chain| - 1], head)
  }

  /** A rewind to any mark whose block is in the chain, whatever has been carved, given back or rewound since
      the mark was taken: the arena is well formed, and of what was handed out exactly the blocks wholly
      below the mark still are. */
  lemma Rewound(im: Image, bk: Books, m: Mark)
    requires Inv(im, bk) && Accepted(m, im.chain) && WasMark(m, im.blocks)
    ensures var d := Depth(im.chain, m.head);
      && (d > 0 ==> im.chain[d - 1] < |im.blocks|)
      && Inv(RewoundTo(im, m, d), BooksAt(bk, im.chain, m, d))
      && forall p :: p in bk.live ==>
           (p in BooksAt(bk, im.chain, m, d).live <==> p in bk.caps && Under(p, bk.caps[p], im.chain, d, m.used))
  {
    hide Carved, Suits, Spared, Apart, Under, Sized, Headed, Threaded, Kept;
    var d := Depth(im.chain, m.head);
    RewoundChain(im.blocks, im.chain, im.spare, bk.caps, m, d);
    RewoundBooks(im, bk, m, d);
    RewoundKept(im, bk, m, d);
  }

  /** What was handed out when the mark was taken, and not given back since, is below it. */
  lemma BeforeStays(m: Mark, t: Taken, im: Image, bk: Books)
    requires Inv(im, bk) && MarkOk(m, t, im.blocks, im.chain, bk.caps)
    ensures Accepted(m, im.chain) && Depth(im.chain, m.head) == t.depth
    ensures forall p :: p in t.before && p in bk.live ==>
      var live' := BooksAt(bk, im.chain, m, t.depth).live; p in live' && live'[p] == bk.live[p]
  {
    hide Sized, Headed, Threaded, Kept, Spared, Under;
    var d := t.depth;
    if d > 0 {
      var e := Depth(im.chain, m.head);
      assert im.chain[d - 1] in im.chain;
      assert im.chain[e - 1] == im.chain[d - 1];
    }
  }

  lemma RewoundKept(im: Image, bk: Books, m: Mark, d: nat)
    requires Inv(im, bk) && d <= |im.chain| && (d > 0 ==> im.chain[d - 1] < |im.blocks|)
    ensures var im' := RewoundTo(im, m, d); Kept(bk.kept, im'.blocks, im'.chain, im'.spare, im'.mem)
  {
    hide Carved, Sized, Headed, Threaded, Spared;
    assert forall b :: b in im.chain[..d] || b in im.chain[d..] + im.spare ==> b in im.chain || b in im.spare;
  }

  lemma RewoundBooks(im: Image, bk: Books, m: Mark, d: nat)
    requires Inv(im, bk) && d <= |im.chain|
    ensures var bk' := BooksAt(bk, im.chain, m, d);
      && Sized(bk'.caps, bk'.live, bk'.free) && Headed(bk'.caps, im.mem)
      && Threaded(seq(CLASSES, _ => None), bk'.lists, bk'.free, im.mem)
  {
    hide Carved, Suits, Spared, Kept, Under;
  }

  lemma RewoundChain(blocks: seq<Block>, chain: seq<nat>, spare: seq<nat>, caps: map<Ptr, nat>, m: Mark, d: nat)
    requires Carved(blocks, chain, caps) && Spared(blocks, chain, spare) && d <= |chain|
    requires d > 0 ==> m.head == Some(chain[d - 1]) && WasMark(m, blocks)
    ensures var blocks' := if d == 0 then blocks else blocks[chain[d - 1] := blocks[chain[d - 1]].(used := m.used)];
      && Carved(blocks', chain[..d], Below(caps, caps, chain, d, m.used))
      && Spared(blocks', chain[..d], chain[d..] + spare)
  {
    hide Apart, Spared, Distinct, Carved, Below;
    AllBlocks(blocks, chain, caps);
    Cut(blocks, chain, spare, d);
    RewoundCarved(blocks, chain, caps, d, m.used);
  }

  lemma AllBlocks(blocks: seq<Block>, chain: seq<nat>, caps: map<Ptr, nat>)
    requires Carved(blocks, chain, caps)
    ensures Distinct(chain) && forall b :: b in chain ==> b < |blocks|
  {
  }

  lemma RewoundCarved(blocks: seq<Block>, chain: seq<nat>, caps: map<Ptr, nat>, d: nat, used: nat)
    requires Carved(blocks, chain, caps) && d <= |chain| && Distinct(chain[..d])
    requires d > 0 ==> chain[d - 1] < |blocks| && used <= blocks[chain[d - 1]].cap
    ensures var blocks' := if d == 0 then blocks else blocks[chain[d - 1] := blocks[chain[d - 1]].(used := used)];
      Carved(blocks', chain[..d], Below(caps, caps, chain, d, used))
  {
    hide Apart, Distinct;
    assert forall b :: b in chain[..d] ==> b in chain;
  }

  /** The two halves of the chain share no block. */
  lemma Cut(blocks: seq<Block>, chain: seq<nat>, spare: seq<nat>, d: nat)
    requires Distinct(chain) && Spared(blocks, chain, spare) && d <= |chain|
    requires forall b :: b in chain ==> b < |blocks|
    ensures Distinct(chain[..d]) && Spared(blocks, chain[..d], chain[d..] + spare)
    ensures forall blocks' :: |blocks'| == |blocks| ==> Spared(blocks', chain[..d], chain[d..] + spare)
  {
    var spare' := chain[d..] + spare;
    forall i | d <= i < |chain| ensures chain[i] !in chain[..d] {
      assert forall j :: 0 <= j < d ==> chain[..d][j] != chain[i];
    }
    forall b | b in spare' ensures b < |blocks| && b !in chain[..d] {
      if b in chain[d..] {
        var i :| d <= i < |chain| && chain[i] == b;
        assert chain[i] in chain;
      }
    }
    forall i, j | 0 <= i < j < |spare'| ensures spare'[i] != spare'[j] {
      if i < |chain| - d {
        assert spare'[i] == chain[d + i];
        if j < |chain| - d {
          assert spare'[j] == chain[d + j];
        } else {
          assert spare'[j] in spare && chain[d + i] in chain;
        }
      }
    }
  }

  /** Mark `n` of depth `c` is not above mark `m` of depth `d`. */
  predicate NotAbove(n: Mark, c: nat, m: Mark, d: nat) {
    c < d || (c == d && n.used <= m.used)
  }

  /** How many marks, from the oldest on, are not above `m`. */
  ghost function Standing(marks: seq<Mark>, taken: seq<Taken>, m: Mark, d: nat): (n: nat)
    requires |marks| == |taken|
    ensures n <= |marks|
    ensures n > 0 ==> NotAbove(marks[n - 1], taken[n - 1].depth, m, d)
    ensures forall i :: n <= i < |marks| ==> !NotAbove(marks[i], taken[i].depth, m, d)
  {
    var n := |marks|;
    if n == 0 || NotAbove(marks[n - 1], taken[n - 1].depth, m, d) then n
    else Standing(marks[..n - 1], taken[..n - 1], m, d)
  }

  /** Marks not above the one rewound to still stand. */
  lemma MarksBelow(marks: seq<Mark>, taken: seq<Taken>, im: Image, bk: Books, m: Mark, d: nat)
    requires Marked(marks, taken, im.blocks, im.chain, bk.caps)
    requires Distinct(im.chain) && d <= |im.chain| && (d > 0 ==> im.chain[d - 1] < |im.blocks|)
    ensures var n, im' := Standing(marks, taken, m, d), RewoundTo(im, m, d);
      Marked(marks[..n], taken[..n], im'.blocks, im'.chain, BooksAt(bk, im.chain, m, d).caps)
  {
    var n := Standing(marks, taken, m, d);
    var im', caps' := RewoundTo(im, m, d), BooksAt(bk, im.chain, m, d).caps;
    forall i | 0 <= i < n ensures MarkOk(marks[i], taken[i], im'.blocks, im'.chain, caps') {
      assert MarkOk(marks[i], taken[i], im.blocks, im.chain, bk.caps);
      MarkBelow(marks[i], taken[i], m, d, im, bk);
    }
  }

  lemma MarkBelow(n: Mark, t: Taken, m: Mark, d: nat, im: Image, bk: Books)
    requires MarkOk(n, t, im.blocks, im.chain, bk.caps) && Distinct(im.chain)
    requires t.depth <= d <= |im.chain| && (t.depth == d ==> n.used <= m.used)
    requires d > 0 ==> im.chain[d - 1] < |im.blocks|
    ensures var im' := RewoundTo(im, m, d); MarkOk(n, t, im'.blocks, im'.chain, BooksAt(bk, im.chain, m, d).caps)
  {
    var im', caps' := RewoundTo(im, m, d), BooksAt(bk, im.chain, m, d).caps;
    assert im'.chain[..t.depth] == im.chain[..t.depth];
    forall p | p in t.before ensures p in caps' && Under(p, caps'[p], im'.chain, t.depth, n.used) {
      assert p in bk.caps && Under(p, bk.caps[p], im.chain, t.depth, n.used);
      var j :| 0 <= j < t.depth && im.chain[j] == p.blk;
      assert im.chain[..d][j] == p.blk;
    }
  }

  // ------------------------------------------------------------------ the arena

  /** Blocks handed out before, `but` one, are handed out still, for the same size and with the same
      contents. */
  ghost predicate Survive(bk: Books, bk': Books, mem: Memory, mem': Memory, but: set<Ptr>) {
    forall q :: HandedOut(bk, q) && q !in but ==>
      HandedOut(bk', q) && SizeOf(bk', q) == SizeOf(bk, q) && Untouched(mem, mem', q, SizeOf(bk, q))
  }

  /** `p` is newly handed out for `n`, and nothing else changes hands. */
  ghost predicate Handed(bk: Books, bk': Books, mem: Memory, mem': Memory, p: Ptr, n: nat) {
    && !HandedOut(bk, p) && HandedOut(bk', p) && SizeOf(bk', p) == n
    && (forall q :: HandedOut(bk', q) ==> HandedOut(bk, q) || q == p)
    && Survive(bk, bk', mem, mem', {})
  }

  /** `p` is given back, and nothing else changes hands. */
  ghost predicate Returned(bk: Books, bk': Books, mem: Memory, mem': Memory, p: Ptr) {
    && (forall q :: HandedOut(bk', q) <==> HandedOut(bk, q) && q != p)
    && Survive(bk, bk', mem, mem', {p})
  }

  lemma NewlyLive(bk: Books, bk': Books, mem: Memory, mem': Memory, p: Ptr, n: nat)
    requires !HandedOut(bk, p) && bk'.kept == bk.kept && bk'.live == bk.live[p := n]
    requires forall q :: HandedOut(bk, q) ==> Untouched(mem, mem', q, SizeOf(bk, q))
    ensures Handed(bk, bk', mem, mem', p, n)
  {
    hide Untouched;
  }

  lemma NewlyKept(bk: Books, bk': Books, mem: Memory, mem': Memory, p: Ptr, n: nat)
    requires !HandedOut(bk, p) && bk'.live == bk.live && bk'.kept == bk.kept[p := n]
    requires forall q :: HandedOut(bk, q) ==> Untouched(mem, mem', q, SizeOf(bk, q))
    ensures Handed(bk, bk', mem, mem', p, n)
  {
    hide Untouched;
  }

  /** Nothing is both persistent and not. */
  lemma OneKind(im: Image, bk: Books)
    requires Inv(im, bk)
    ensures forall q :: q in bk.live ==> q !in bk.kept
  {
    hide Threaded, Headed, Spared, Suits;
  }

  lemma GivenBack(bk: Books, bk': Books, mem: Memory, mem': Memory, p: Ptr)
    requires forall q :: q in bk.live ==> q !in bk.kept
    requires (p in bk.live && bk'.live == bk.live - {p} && bk'.kept == bk.kept)
          || (p in bk.kept && bk'.kept == bk.kept - {p} && bk'.live == bk.live)
    requires forall q :: HandedOut(bk, q) && q != p ==> Untouched(mem, mem', q, SizeOf(bk, q))
    ensures Returned(bk, bk', mem, mem', p)
  {
    hide Untouched;
  }

  lemma ChainKnown(im: Image, bk: Books)
    requires Inv(im, bk)
    ensures forall b :: b in im.chain ==> b < |im.blocks|
    ensures im.chain != [] ==> im.chain[|im.chain| - 1] in im.chain
  {
  }

  lemma SpareKnown(im: Image, bk: Books)
    requires Inv(im, bk)
    ensures forall k :: 0 <= k < |im.spare| ==> im.spare[k] < |im.blocks|
  {
    assert forall k :: 0 <= k < |im.spare| ==> im.spare[k] in im.spare;
  }

  lemma SpareFresh(im: Image, bk: Books)
    requires Inv(im, bk) && |im.spare| > 0
    ensures im.spare[0] !in im.chain
  {
    assert im.spare[0] in im.spare;
  }

  lemma Unchanged(mem: Memory)
    ensures forall p, n :: Untouched(mem, mem, p, n)
  {
  }

  lemma OneClass(n: nat, c: Option<nat>)
    requires if c.Some? then Fitting(n, c.value) else n > ClassSize(CLASSES - 1)
    ensures forall d: nat :: Fitting(n, d) ==> c == Some(d)
  {
    forall d: nat | Fitting(n, d) ensures c == Some(d) {
      if c.Some? {
        NotHigher(n, d, n, c.value);
        NotHigher(n, c.value, n, d);
      } else {
        UpToTop(n, d);
      }
    }
  }

  lemma InTable(n: nat, c: nat)
    requires Fitting(n, c)
    ensures c < CLASSES
  {
  }

  lemma UpToTop(n: nat, c: nat)
    requires Fitting(n, c)
    ensures n <= ClassSize(CLASSES - 1) && (n > 0 ==> Carves(n, ClassSize(c)))
  {
    if c < CLASSES - 1 {
      ClassesGrow(c, CLASSES - 1);
    }
  }

  /** The header of a block handed out says whether it is persistent. */
  lemma HeaderTells(im: Image, bk: Books, p: Ptr)
    requires Inv(im, bk) && HandedOut(bk, p)
    ensures var h := HeaderOf(p);
      h in im.mem && im.mem[h].Header? && (if im.mem[h].persist then p in bk.kept else p in bk.live)
  {
    hide Threaded, Spared, Suits;
  }

  /** A step of the arena that rewinds nothing: no block shrinks, and the chain grows by a new block or by
      the first of the spares, if at all. */
  ghost predicate Grew(im: Image, im': Image) {
    && |im.blocks| <= |im'.blocks|
    && (forall b :: 0 <= b < |im.blocks| ==> im'.blocks[b].cap == im.blocks[b].cap)
    && (|| (im'.chain == im.chain && im'.spare == im.spare)
        || (im'.chain == im.chain + [|im.blocks|] && im'.spare == im.spare && |im.blocks| < |im'.blocks|)
        || (im.spare != [] && im'.chain == im.chain + [im.spare[0]] && im'.spare == im.spare[1..]))
  }

  /** Carving from a block of the chain changes neither chain nor capacities. */
  lemma GrewCarved(im: Image, im': Image, b: nat, used: nat, mem: Memory)
    requires Grew(im, im') && b < |im'.blocks|
    ensures Grew(im, im'.(blocks := im'.blocks[b := im'.blocks[b].(used := used)], mem := mem))
  {
  }

  /** A mark taken once is one for ever. */
  lemma WasMarkStays(m: Mark, im: Image, im': Image)
    requires WasMark(m, im.blocks)
    ensures Grew(im, im') ==> WasMark(m, im'.blocks)
    ensures forall n: Mark, d: nat :: d <= |im.chain| && (d > 0 ==> im.chain[d - 1] < |im.blocks|) ==>
      WasMark(m, RewoundTo(im, n, d).blocks)
  {
  }

  /** Since `now` the chain has taken back the first `n` spares, and otherwise only new blocks. */
  ghost predicate Regrown(now: Image, im: Image, n: nat) {
    && n <= |now.spare| && im.spare == now.spare[n..] && |now.blocks| <= |im.blocks|
    && (forall b :: b in now.chain || b in now.spare[..n] ==> b in im.chain)
    && (forall b :: b in im.chain ==> b in now.chain || b in now.spare[..n] || b >= |now.blocks|)
  }

  lemma GrewKeeps(now: Image, im: Image, n: nat, im': Image)
    requires Regrown(now, im, n) && Grew(im, im')
    ensures |im'.spare| <= |now.spare| && Regrown(now, im', |now.spare| - |im'.spare|)
  {
    assert forall b :: b in im'.chain ==> b in im.chain || im'.chain == im.chain + [b];
    if im'.spare != im.spare {
      assert im.spare[0] == now.spare[n];
      assert now.spare[..n + 1] == now.spare[..n] + [im.spare[0]];
    }
  }

  /** A mark that a rewind to an earlier one has overtaken is stale. Exactly the stale marks whose block has
      been taken back since pass the check, those of the block rewound to among them. */
  lemma StaleExactly(marks: seq<Mark>, taken: seq<Taken>, im: Image, bk: Books, k: nat, j: nat, later: Image, n: nat)
    requires Marked(marks, taken, im.blocks, im.chain, bk.caps) && Distinct(im.chain) && k < j < |marks|
    ensures MarkOk(marks[k], taken[k], im.blocks, im.chain, bk.caps) && |taken| == |marks|
    ensures Regrown(RewoundTo(im, marks[k], taken[k].depth), later, n) ==>
      (Accepted(marks[j], later.chain) <==> taken[j].depth <= taken[k].depth + n)
  {
    var c, d := taken[k].depth, taken[j].depth;
    assert MarkOk(marks[k], taken[k], im.blocks, im.chain, bk.caps);
    assert MarkOk(marks[j], taken[j], im.blocks, im.chain, bk.caps);
    var now := RewoundTo(im, marks[k], c);
    if d > 0 && Regrown(now, later, n) {
      var b := im.chain[d - 1];
      if d <= c {
        assert now.chain[d - 1] == b;
      } else if d <= c + n {
        assert now.spare[..n][d - 1 - c] == b;
      } else {
        assert forall i :: 0 <= i < c ==> now.chain[i] == im.chain[i];
        assert forall i :: 0 <= i < n ==> now.spare[..n][i] == im.chain[c + i];
      }
    }
  }

  /** A run after a rewind that makes no other rewind. */
  ghost predicate Carving(run: seq<Image>) {
    |run| > 0 && forall i :: 0 <= i < |run| - 1 ==> Grew(run[i], run[i + 1])
  }

  lemma {:induction false} RunRegrows(run: seq<Image>, i: nat)
    requires Carving(run) && i < |run|
    ensures |run[i].spare| <= |run[0].spare| && Regrown(run[0], run[i], |run[0].spare| - |run[i].spare|)
  {
    if i == 0 {
      assert run[0].spare[..0] == [];
    } else {
      hide Regrown, Grew;
      RunRegrows(run, i - 1);
      assert Grew(run[i - 1], run[i - 1 + 1]);
      GrewKeeps(run[0], run[i - 1], |run[0].spare| - |run[i - 1].spare|, run[i]);
    }
  }

  /** Over whole runs: a stale mark passes from the moment its block has been taken back from the spares,
      which is where the next new block comes from. */
  lemma StaleRun(marks: seq<Mark>, taken: seq<Taken>, im: Image, bk: Books, k: nat, j: nat, run: seq<Image>, i: nat)
    requires Marked(marks, taken, im.blocks, im.chain, bk.caps) && Distinct(im.chain) && k < j < |marks|
    requires Carving(run) && i < |run|
    ensures MarkOk(marks[k], taken[k], im.blocks, im.chain, bk.caps) && |taken| == |marks|
    ensures run[0] == RewoundTo(im, marks[k], taken[k].depth) ==>
      (Accepted(marks[j], run[i].chain) <==> taken[j].depth <= taken[k].depth + |run[0].spare| - |run[i].spare|)
  {
    hide Marked, Regrown, Carving;
    RunRegrows(run, i);
    StaleExactly(marks, taken, im, bk, k, j, run[i], |run[0].spare| - |run[i].spare|);
  }

  /** A block that the mark cuts through is exposed: the next one carved overlaps it. */
  lemma Exposed(im: Image, m: Mark, d: nat, p: Ptr, n: nat, size: nat)
    requires 0 < d <= |im.chain| && im.chain[d - 1] == p.blk < |im.blocks| && m.head == Some(p.blk)
    requires p.off < m.used < p.off + n
    ensures var now := RewoundTo(im, m, d);
      Top(now.chain) == Some(p.blk) && !Apart(p, n, Ptr(p.blk, now.blocks[p.blk].used + HEADER), size)
  {
  }

  lemma DistinctChain(im: Image, bk: Books)
    requires Inv(im, bk)
    ensures Distinct(im.chain)
  {
  }

  /** The newest block of the chain has room for `need` cells. */
  ghost predicate RoomOnTop(im: Image, need: nat) {
    im.chain != [] && var b := im.chain[|im.chain| - 1];
      b < |im.blocks| && im.blocks[b].used + need <= im.blocks[b].cap
  }

  /** The first spare block is large enough. */
  ghost predicate SpareSuits(im: Image, cap: nat) {
    im.spare != [] && im.spare[0] < |im.blocks| && cap <= im.blocks[im.spare[0]].cap
  }

  /** The chain has grown by the first spare block if that is large enough, and otherwise by one from malloc;
      `used` cells of it are in use. */
  ghost predicate NewOnTop(im: Image, im': Image, cap: nat, used: nat) {
    if SpareSuits(im, cap) then
      var b := im.spare[0];
      && im'.chain == im.chain + [b] && im'.spare == im.spare[1..]
      && im'.blocks == im.blocks[b := im.blocks[b].(used := used)]
    else
      && im'.chain == im.chain + [|im.blocks|] && im'.spare == im.spare
      && im'.blocks == im.blocks + [Block(cap, used)]
  }

  function BlockSize(need: nat): nat {
    if need > 8192 then need else 8192
  }

  /** Where the next block carved lies: above what is used of the newest block, or, if that has no room, at
      the start of a new one. */
  ghost predicate CarvedFrom(im: Image, im': Image, size: nat, p: Ptr) {
    var need := size + HEADER;
    && im'.heads == im.heads
    && if RoomOnTop(im, need) then
         var b := im.chain[|im.chain| - 1];
         var t := im.blocks[b];
         && p == Ptr(b, t.used + HEADER) && im'.chain == im.chain && im'.spare == im.spare
         && im'.blocks == im.blocks[b := t.(used := t.used + need)]
       else
         && NewOnTop(im, im', BlockSize(need), need)
         && p == Ptr(im'.chain[|im'.chain| - 1], HEADER)
  }

  lemma RewoundIs(im: Image, m: Mark, d: nat, im': Image)
    requires d == Depth(im.chain, m.head) && Accepted(m, im.chain) && (d > 0 ==> im.chain[d - 1] < |im.blocks|)
    requires im'.chain == im.chain[..d] && im'.spare == im.chain[d..] + im.spare && im'.mem == im.mem
    requires im'.heads == seq(CLASSES, _ => None)
    requires m.head.None? ==> im'.blocks == im.blocks
    requires m.head.Some? && m.head.value < |im.blocks| ==>
      im'.blocks == im.blocks[m.head.value := im.blocks[m.head.value].(used := m.used)]
    ensures im' == RewoundTo(im, m, d)
  {
  }

  /** A mark that stands is accepted, keeps what it promises and stands afterwards. */
  lemma StandingMarks(marks: seq<Mark>, taken: seq<Taken>, im: Image, bk: Books, m: Mark)
    requires Inv(im, bk) && Marked(marks, taken, im.blocks, im.chain, bk.caps)
    ensures |marks| == |taken|
    ensures var d := Depth(im.chain, m.head);
      forall k :: 0 <= k < |marks| && marks[k] == m ==>
        && Accepted(m, im.chain) && k < Standing(marks, taken, m, d)
        && forall p :: p in taken[k].before && p in bk.live ==>
             var live' := BooksAt(bk, im.chain, m, d).live; p in live' && live'[p] == bk.live[p]
  {
    hide Inv, MarkOk, BooksAt;
    forall k | 0 <= k < |marks| && marks[k] == m
      ensures Accepted(m, im.chain) && Depth(im.chain, m.head) == taken[k].depth
      ensures forall p :: p in taken[k].before && p in bk.live ==>
        var live' := BooksAt(bk, im.chain, m, taken[k].depth).live; p in live' && live'[p] == bk.live[p]
    {
      assert MarkOk(marks[k], taken[k], im.blocks, im.chain, bk.caps);
      BeforeStays(m, taken[k], im, bk);
    }
  }

  /** Block `p` is filed: it is the new head of the list of class `c`, and no other list changes. */
  ghost predicate FiledUnder(im: Image, bk: Books, im': Image, bk': Books, p: Ptr, c: nat) {
    && c < |im.heads| && c < |bk.lists|
    && im'.heads == im.heads[c := Some(p)]
    && bk'.lists == bk.lists[c := [p] + bk.lists[c]] && bk'.free == bk.free[p := c] && bk'.live == bk.live - {p}
    && im'.blocks == im.blocks && im'.chain == im.chain && im'.spare == im.spare
  }

  /** The head of the list of class `c` is taken off it; nothing is carved and no other list changes. */
  ghost predicate Unfiled(im: Image, bk: Books, im': Image, bk': Books, c: nat) {
    && c < |im.heads| == |im'.heads| && c < |bk.lists| && bk.lists[c] != []
    && im.heads[c] == Some(bk.lists[c][0])
    && im'.heads == im.heads[c := im'.heads[c]]
    && bk'.lists == bk.lists[c := bk.lists[c][1..]] && bk'.free == bk.free - {bk.lists[c][0]}
    && bk.lists[c][0] in bk'.live && bk'.live == bk.live[bk.lists[c][0] := bk'.live[bk.lists[c][0]]]
    && im'.blocks == im.blocks && im'.chain == im.chain && im'.spare == im.spare
  }

  /** A class's list is empty or starts at its head. */
  lemma HeadOfList(im: Image, bk: Books, c: nat)
    requires Inv(im, bk) && c < CLASSES
    ensures |im.heads| == |bk.lists| == CLASSES && im.heads[c] == At(bk.lists[c], 0)
  {
    hide Carved, Spared, Sized, Headed, Kept;
    assert Thread(im.heads[c], bk.lists[c], im.mem);
  }

  class Allocator {
    const fl: array<Option<Ptr>>
    const flBig: array<Option<Ptr>>
    var blocks: seq<Block>
    var chain: seq<nat>
    var spare: seq<nat>
    var mem: Memory
    var persistDepth: nat
    ghost var books: Books
    /** The marks that still stand, oldest first. */
    ghost var marks: seq<Mark>
    ghost var taken: seq<Taken>

    ghost predicate Shape() {
      fl.Length == SMALL && flBig.Length == BIG && fl != flBig
    }

    ghost function Now(): Image
      requires Shape()
      reads this, fl, flBig
    {
      Image(blocks, chain, spare, mem, fl[..] + flBig[..])
    }

    ghost predicate Valid()
      reads this, fl, flBig
    {
      Shape() && Inv(Now(), books) && Marked(marks, taken, blocks, chain, books.caps)
    }

    lemma Shaped()
      requires Valid()
      ensures Shape()
    {
    }

    lemma HeadAt(c: nat)
      requires Valid() && c < CLASSES
      ensures Shape() && |Now().heads| == |books.lists| == CLASSES && Now().heads[c] == At(books.lists[c], 0)
    {
      hide Inv, Marked;
      HeadOfList(Now(), books, c);
    }

    constructor ()
      ensures Valid() && fresh(fl) && fresh(flBig) && marks == [] && taken == [] && persistDepth == 0
      ensures forall p :: !HandedOut(books, p)
      ensures blocks == [] && chain == [] && spare == [] && Now().heads == seq(CLASSES, _ => None)
    {
      fl := new Option<Ptr>[SMALL](_ => None);
      flBig := new Option<Ptr>[BIG](_ => None);
      blocks, chain, spare, mem, persistDepth, marks := [], [], [], map[], 0, [];
      books := Books(map[], map[], map[], map[], seq(CLASSES, _ => []));
      taken := [];
      new;
      assert fl[..] + flBig[..] == seq(CLASSES, _ => None);
    }

    method Head(c: nat) returns (head: Option<Ptr>)
      requires Shape() && c < CLASSES
      ensures head == Now().heads[c]
    {
      if c < SMALL {
        head := fl[c];
      } else {
        head := flBig[c - SMALL];
      }
    }

    method SetHead(c: nat, head: Option<Ptr>)
      requires Shape() && c < CLASSES
      modifies fl, flBig
      ensures Now() == old(Now()).(heads := old(Now()).heads[c := head])
    {
      if c < SMALL {
        fl[c] := head;
      } else {
        flBig[c - SMALL] := head;
      }
    }

    /** A block from the list of its class, if there is one. */
    method Recycled(c: nat, n: nat) returns (p: Option<Ptr>)
      requires Valid() && c < CLASSES && Fitting(n, c)
      modifies this`mem, this`books, fl, flBig
      ensures Valid()
      ensures p.None? ==> mem == old(mem) && books == old(books) && Now() == old(Now())
      ensures p == old(Now()).heads[c]
      ensures p.Some? ==> Unfiled(old(Now()), old(books), Now(), books, c)
      ensures p.Some? ==> Handed(old(books), books, old(mem), mem, p.value, n) && books.kept == old(books.kept)
    {
      hide Inv, Marked, Untouched, HandedOut, Handed;
      p := Head(c);
      HeadOfList(Now(), books, c);
      if p.Some? {
        Recycle(Now(), books, c, n);
        ghost var list := books.lists[c];
        var block := p.value;
        SetHead(c, mem[block].next);
        mem := Put(mem, HeaderOf(block), HEADER, Header(false));
        books := books.(live := books.live[block := n], free := books.free - {block},
                        lists := books.lists[c := list[1..]]);
        NewlyLive(old(books), books, old(mem), mem, block, n);
        assert Now().heads == old(Now()).heads[c := Now().heads[c]];
      }
    }

    /** The block at the end of the chain, or if it has no room for `need` cells a new one: the first
        spare block if that is large enough, and otherwise one from malloc. */
    method BlockFor(need: nat) returns (b: nat)
      requires Valid()
      modifies this`blocks, this`chain, this`spare
      ensures Valid() && b in chain && b < |blocks| && blocks[b].used + need <= blocks[b].cap
      ensures b == chain[|chain| - 1]
      ensures if RoomOnTop(old(Now()), need) then Now() == old(Now())
              else NewOnTop(old(Now()), Now(), BlockSize(need), 0)
      ensures Grew(old(Now()), Now())
    {
      hide Inv, Marked;
      ChainKnown(Now(), books);
      if chain != [] {
        b := chain[|chain| - 1];
        assert b in chain;
        if blocks[b].used + need <= blocks[b].cap {
          return b;
        }
      }
      NewBlock(BlockSize(need));
      ChainKnown(Now(), books);
      b := chain[|chain| - 1];
    }

    method NewBlock(cap: nat)
      requires Valid()
      modifies this`blocks, this`chain, this`spare
      ensures Valid() && chain != []
      ensures var b := chain[|chain| - 1]; b < |blocks| && blocks[b].used == 0 && cap <= blocks[b].cap
      ensures NewOnTop(old(Now()), Now(), cap, 0)
      ensures Grew(old(Now()), Now())
    {
      hide Inv, Marked;
      ghost var im := Now();
      SpareKnown(im, books);
      if |spare| > 0 && blocks[spare[0]].cap >= cap {
        var b := spare[0];
        SpareReused(im, books);
        SpareFresh(im, books);
        blocks := blocks[b := blocks[b].(used := 0)];
        spare := spare[1..];
        chain := chain + [b];
        MarksStay(marks, taken, im.blocks, im.chain, books.caps, blocks, chain, books.caps);
      } else {
        ChainGrows(im, books, cap);
        blocks := blocks + [Block(cap, 0)];
        chain := chain + [|blocks| - 1];
        MarksStay(marks, taken, im.blocks, im.chain, books.caps, blocks, chain, books.caps);
      }
    }

    /** `size` cells and a header carved for a request of `n`. */
    method Bump(n: nat, size: nat) returns (p: Ptr)
      requires Valid() && Carves(n, size)
      modifies this`blocks, this`chain, this`spare, this`mem, this`books
      ensures Valid() && Handed(old(books), books, old(mem), mem, p, n) && books.kept == old(books.kept)
      ensures CarvedFrom(old(Now()), Now(), size, p) && Grew(old(Now()), Now())
    {
      hide Inv, Marked, Untouched, HandedOut, Carves, Put, Handed, Grew;
      ghost var was := Now();
      var b := BlockFor(size + HEADER);
      ghost var im, bk := Now(), books;
      Carve(im, books, b, n, size);
      var used := blocks[b].used;
      p := Ptr(b, used + HEADER);
      mem := Put(mem, Ptr(b, used), HEADER, Header(false));
      blocks := blocks[b := blocks[b].(used := used + size + HEADER)];
      books := books.(caps := books.caps[p := size], live := books.live[p := n]);
      MarksStay(marks, taken, im.blocks, im.chain, bk.caps, blocks, chain, books.caps);
      NewlyLive(bk, books, old(mem), mem, p, n);
      GrewCarved(was, im, b, used + size + HEADER, mem);
    }

    /** While persistent allocation is on, every block is a malloc of its own with a persistent header. */
    method AllocPersistent(n: nat) returns (p: Ptr)
      requires Valid()
      modifies this`blocks, this`mem, this`books
      ensures Valid() && Handed(old(books), books, old(mem), mem, p, n) && books.live == old(books.live)
      ensures Grew(old(Now()), Now())
    {
      hide Inv, Marked, Untouched, HandedOut, Known, Put, Handed;
      ghost var im, bk := Now(), books;
      var room := 16;
      if n > 0 {
        var c := SizeClass(n);
        room := if c.Some? then ClassSize(c.value) else n;
      }
      Persist(im, books, n, room);
      var b := |blocks|;
      p := Ptr(b, HEADER);
      mem := Put(mem, Ptr(b, 0), HEADER, Header(true));
      blocks := blocks + [Block(room + HEADER, 0)];
      books := books.(kept := books.kept[p := n]);
      MarksStay(marks, taken, im.blocks, im.chain, bk.caps, blocks, chain, books.caps);
      NewlyKept(bk, books, old(mem), mem, p, n);
    }

    /** A block for `n` bytes. It is new to the program, and no block the program holds changes. */
    method Alloc(n: nat) returns (p: Ptr)
      requires Valid()
      modifies this`blocks, this`chain, this`spare, this`mem, this`books, fl, flBig
      ensures Valid() && Handed(old(books), books, old(mem), mem, p, n)
      ensures if persistDepth > 0 then books.live == old(books.live) else books.kept == old(books.kept)
      ensures persistDepth == 0 && n > 0 ==>
        forall c: nat :: Fitting(n, c) && c < |old(Now()).heads| && old(Now()).heads[c].None? ==>
          CarvedFrom(old(Now()), Now(), ClassSize(c), p)
      ensures persistDepth == 0 && n > 0 ==>
        forall c: nat :: Fitting(n, c) && c < |old(Now()).heads| && old(Now()).heads[c].Some? ==>
          old(Now()).heads[c] == Some(p) && Unfiled(old(Now()), old(books), Now(), books, c)
      ensures persistDepth == 0 && n > ClassSize(CLASSES - 1) ==> CarvedFrom(old(Now()), Now(), n, p)
      ensures persistDepth == 0 && n == 0 ==> CarvedFrom(old(Now()), Now(), 0, p)
      ensures Grew(old(Now()), Now())
    {
      hide Inv, Marked, Handed, Fitting, CarvedFrom, Unfiled;
      if persistDepth > 0 {
        p := AllocPersistent(n);
      } else if n == 0 {
        p := Bump(0, 0);
      } else {
        var c := SizeClass(n);
        OneClass(n, c);
        if c.Some? {
          InTable(n, c.value);
          var block := Recycled(c.value, n);
          if block.Some? {
            return block.value;
          }
          UpToTop(n, c.value);
          p := Bump(n, ClassSize(c.value));
        } else {
          p := Bump(n, n);
        }
      }
    }

    /** Giving back a block at a size no larger than it was asked for. A persistent one goes back to
        malloc; any other is filed under the class of that size, or left until a rewind if too large. */
    method Free(p: Option<Ptr>, n: int)
      requires Valid()
      requires p.Some? && n > 0 ==> HandedOut(books, p.value) && n <= SizeOf(books, p.value)
      modifies this`mem, this`books, fl, flBig
      ensures Valid()
      ensures if p.Some? && n > 0 then Returned(old(books), books, old(mem), mem, p.value)
              else books == old(books) && mem == old(mem)
      ensures p.Some? && n > 0 && p.value in old(books.live) && n <= ClassSize(CLASSES - 1) ==>
        exists c: nat :: Fitting(n, c) && FiledUnder(old(Now()), old(books), Now(), books, p.value, c)
      ensures !(p.Some? && n > 0 && p.value in old(books.live) && n <= ClassSize(CLASSES - 1)) ==>
        Now() == old(Now()) && books.free == old(books.free) && books.lists == old(books.lists)
    {
      if p.None? || n <= 0 {
        return;
      }
      hide Inv, Marked, Returned, Untouched, FiledUnder, Fitting;
      ghost var bk := books;
      HeaderTells(Now(), books, p.value);
      OneKind(Now(), books);
      if mem[HeaderOf(p.value)].persist {
        Released(Now(), books, p.value);
        books := books.(kept := books.kept - {p.value});
        Unchanged(mem);
        GivenBack(bk, books, mem, mem, p.value);
        return;
      }
      var c := SizeClass(n);
      if c.Some? {
        UpToTop(n, c.value);
        File(p.value, n, c.value);
      } else {
        Dropped(Now(), books, p.value);
        books := books.(live := books.live - {p.value});
        Unchanged(mem);
        GivenBack(bk, books, mem, mem, p.value);
      }
    }

    method File(p: Ptr, n: nat, c: nat)
      requires Valid() && p in books.live && 0 < n <= books.live[p] && Fitting(n, c)
      modifies this`mem, this`books, fl, flBig
      ensures Valid() && Returned(old(books), books, old(mem), mem, p)
      ensures FiledUnder(old(Now()), old(books), Now(), books, p, c)
    {
      hide Inv, Marked, Returned, Untouched, Put;
      InTable(n, c);
      ghost var bk := books;
      Filed(Now(), books, p, n, c);
      OneKind(Now(), books);
      var head := Head(c);
      mem := Put(mem, p, WORD, Link(head));
      SetHead(c, Some(p));
      books := books.(live := books.live - {p}, free := books.free[p := c],
                      lists := books.lists[c := [p] + books.lists[c]]);
      GivenBack(bk, books, old(mem), mem, p);
    }

    /** The program writes a byte of a block it holds. */
    method Write(p: Ptr, o: nat, v: int)
      requires Valid() && HandedOut(books, p) && o < SizeOf(books, p)
      modifies this`mem
      ensures Valid() && mem == old(mem)[Ptr(p.blk, p.off + o) := Data(v)]
      ensures Survive(books, books, old(mem), mem, {p})
    {
      hide Inv, Marked, Untouched;
      ProgramWrites(Now(), books, p, o, v);
      mem := mem[Ptr(p.blk, p.off + o) := Data(v)];
    }

    method PersistBegin()
      modifies this`persistDepth
      ensures persistDepth == old(persistDepth) + 1
    {
      persistDepth := persistDepth + 1;
    }

    method PersistEnd()
      requires persistDepth > 0
      modifies this`persistDepth
      ensures persistDepth == old(persistDepth) - 1
    {
      persistDepth := persistDepth - 1;
    }

    /** Notes where the arena stands. */
    method TakeMark() returns (m: Mark)
      requires Valid()
      modifies this`marks, this`taken
      ensures Valid() && marks == old(marks) + [m] && taken == old(taken) + [Taken(|chain|, books.live.Keys)]
      ensures m.head == Top(chain) && Accepted(m, chain) && WasMark(m, blocks)
      ensures chain != [] && chain[|chain| - 1] < |blocks| ==> m.used == blocks[chain[|chain| - 1]].used
    {
      hide Inv, Marked;
      MarkTaken(Now(), books, marks, taken);
      var top := Top(chain);
      m := Mark(top, if top.None? then 0 else blocks[top.value].used);
      marks := marks + [m];
      taken := taken + [Taken(|chain|, books.live.Keys)];
    }

    /** Blocks newer than the mark's go to the front of the spares, one by one; then the check. */
    method Pop(m: Mark) returns (ok: bool)
      modifies this`chain, this`spare
      ensures ok <==> Accepted(m, old(chain))
      ensures ok ==>
        var d := Depth(old(chain), m.head); chain == old(chain)[..d] && spare == old(chain)[d..] + old(spare)
    {
      ghost var was, before := chain, spare;
      assert was[..|was|] == was && was[|was|..] + before == before;
      while chain != [] && Top(chain) != m.head
        invariant |chain| <= |was| && chain == was[..|chain|] && spare == was[|chain|..] + before
        invariant Accepted(m, chain) <==> Accepted(m, was)
        invariant Depth(chain, m.head) == Depth(was, m.head)
        decreases |chain|
      {
        var b := chain[|chain| - 1];
        assert was[|chain| - 1..] == [b] + was[|chain|..];
        assert chain == chain[..|chain| - 1] + [b];
        spare := [b] + spare;
        chain := chain[..|chain| - 1];
      }
      ok := Top(chain) == m.head;
    }

    method ClearLists()
      requires Shape()
      modifies fl, flBig
      ensures Now() == old(Now()).(heads := seq(CLASSES, _ => None))
    {
      forall i | 0 <= i < fl.Length {
        fl[i] := None;
      }
      forall i | 0 <= i < flBig.Length {
        flBig[i] := None;
      }
      assert fl[..] + flBig[..] == seq(CLASSES, _ => None);
    }

    /** Back to a mark, whenever it was taken; `ok` is false where the program ends with an error. The arena is
        well formed afterwards, memory itself does not change, persistent blocks are not touched, and of the
        others exactly those wholly below the mark are still handed out. If the mark still stands, these are
        all that were handed out when it was taken and not given back since. */
    method Rewind(m: Mark) returns (ok: bool)
      requires Valid() && WasMark(m, blocks)
      modifies this`blocks, this`chain, this`spare, this`marks, this`books, this`taken, fl, flBig
      ensures ok <==> Accepted(m, old(chain))
      ensures |old(marks)| == |old(taken)|
      ensures ok ==> Valid() && var d := Depth(old(chain), m.head);
        && (d > 0 ==> old(chain)[d - 1] < |old(blocks)|)
        && Now() == RewoundTo(old(Now()), m, d) && books == BooksAt(old(books), old(chain), m, d)
        && var n := Standing(old(marks), old(taken), m, d); marks == old(marks)[..n] && taken == old(taken)[..n]
      ensures forall k :: 0 <= k < |old(marks)| && old(marks)[k] == m ==>
        && ok && k < |marks|
        && forall p :: p in old(taken)[k].before && p in old(books.live) ==>
             p in books.live && books.live[p] == old(books.live)[p]
    {
      hide Inv, Marked, Under, MarkOk, Standing, RewoundTo, BooksAt;
      ghost var im, bk := Now(), books;
      OneEach(marks, taken, im, bk);
      StandingMarks(marks, taken, im, bk, m);
      ok := Pop(m);
      if !ok {
        return;
      }
      ghost var d := Depth(im.chain, m.head);
      Rewound(im, bk, m);
      DistinctChain(im, bk);
      MarksBelow(marks, taken, im, bk, m, d);
      if m.head.Some? {
        blocks := blocks[m.head.value := blocks[m.head.value].(used := m.used)];
      }
      ClearLists();
      RewoundIs(im, m, d, Now());
      books := BooksAt(bk, im.chain, m, d);
      ghost var n := Standing(marks, taken, m, d);
      marks, taken := marks[..n], taken[..n];
    }
  }

  /** A block given back is the one that the next request of its class gets. */
  method FreedComesBack(a: Allocator, p: Ptr, n: nat, m: nat, ghost c: nat) returns (q: Ptr)
    requires a.Valid() && a.persistDepth == 0 && p in a.books.live && 0 < n <= a.books.live[p]
    requires Fitting(n, c) && Fitting(m, c) && m > 0
    modifies a`blocks, a`chain, a`spare, a`mem, a`books, a.fl, a.flBig
    ensures a.Valid() && q == p && a.books.live == old(a.books.live)[p := m]
    ensures a.blocks == old(a.blocks) && a.chain == old(a.chain) && a.spare == old(a.spare)
    ensures a.Now().heads == old(a.Now()).heads
  {
    hide Inv, Marked, Survive, Grew, Allocator.Valid;
    UpToTop(n, c);
    InTable(n, c);
    a.HeadAt(c);
    ghost var heads := a.Now().heads;
    OneClass(n, Some(c));
    a.Free(Some(p), n);
    q := a.Alloc(m);
    a.HeadAt(c);
    assert a.Now().heads == heads;
  }

  /** Two marks in one block. */
  method TwoMarks() returns (a: Allocator, first: Mark, second: Mark)
    ensures fresh(a) && fresh(a.fl) && fresh(a.flBig) && a.Valid() && a.persistDepth == 0
    ensures a.chain == [0] && a.blocks == [Block(8192, 64)]
    ensures first == Mark(Some(0), 32) && second == Mark(Some(0), 64) && a.marks == [first, second]
    ensures |a.taken| == 2 && a.taken[1].depth == 1
  {
    hide Inv, Marked, Fitting, Survive, HandedOut, SizeOf, Handed, Allocator.Valid, Grew;
    SmallFits(16);
    a := new Allocator();
    var q := a.Alloc(16);
    assert a.chain == [0] && a.blocks == [Block(8192, 32)];
    first := a.TakeMark();
    q := a.Alloc(16);
    assert a.chain == [0] && a.blocks == [Block(8192, 64)];
    second := a.TakeMark();
  }

  /** A rewind to the first of them leaves the second stale. */
  method Overtaken() returns (a: Allocator, m: Mark)
    ensures fresh(a) && fresh(a.fl) && fresh(a.flBig) && a.Valid() && a.persistDepth == 0
    ensures a.chain == [0] && a.blocks == [Block(8192, 32)] && a.Now().heads == seq(CLASSES, _ => None)
    ensures m == Mark(Some(0), 64) && m !in a.marks
  {
    hide Inv, Marked, Allocator.Valid, BooksAt;
    var first;
    a, first, m := TwoMarks();
    ghost var taken := a.taken;
    var ok := a.Rewind(first);
    assert !NotAbove(m, taken[1].depth, first, 1);
  }

  /** A block handed out since lies across the stale mark. */
  method Across() returns (a: Allocator, m: Mark, p: Ptr)
    ensures fresh(a) && fresh(a.fl) && fresh(a.flBig) && a.Valid() && a.persistDepth == 0
    ensures a.chain == [0] && a.blocks == [Block(8192, 96)]
    ensures m == Mark(Some(0), 64) && p == Ptr(0, 48) && HandedOut(a.books, p) && SizeOf(a.books, p) == 48
  {
    hide Inv, Marked, Fitting, Survive, HandedOut, SizeOf, Grew, Allocator.Valid;
    SmallFits(48);
    a, m := Overtaken();
    a.Shaped();
    assert Fitting(48, 2) && a.Now().heads[2].None?;
    p := a.Alloc(48);
  }

  /** A rewind out of order that is no error: the stale mark is accepted, and the next block handed out overlaps
      the one across the mark. */
  method StaleMark() returns (a: Allocator, ok: bool, p: Ptr, q: Ptr, ghost before: Books)
    ensures fresh(a) && a.Valid() && ok
    ensures HandedOut(before, p) && SizeOf(before, p) == 48
    ensures HandedOut(a.books, q) && SizeOf(a.books, q) == 16 && !Apart(p, 48, q, 16)
  {
    hide Inv, Marked, Fitting, Survive, HandedOut, SizeOf, Grew, Allocator.Valid, BooksAt;
    SmallFits(16);
    var m;
    a, m, p := Across();
    before := a.books;
    ok := a.Rewind(m);
    assert a.chain == [0] && a.blocks == [Block(8192, 64)];
    a.Shaped();
    assert Fitting(16, 0) && a.Now().heads[0].None?;
    q := a.Alloc(16);
    assert q == Ptr(0, 80);
  }
}
