// tree-hash.c: the root, path and branch of a lopsided Merkle tree, over an abstract hash of two children.

module MerkleTrees {
  import opened Arithmetic

  // ---- The tree ----

  /** The root of a full binary tree: the hash of the roots of its two halves. */
  function Root<T>(f: (T, T) -> T, s: seq<T>, k: nat): T
    requires |s| == Pow2(k)
  {
    if k == 0 then s[0]
    else f(Root(f, s[..Pow2(k - 1)], k - 1), Root(f, s[Pow2(k - 1)..], k - 1))
  }

  function Pairs<T>(f: (T, T) -> T, s: seq<T>): (r: seq<T>)
    requires |s| % 2 == 0
    ensures |r| == |s| / 2
  {
    seq(|s| / 2, j requires 0 <= j < |s| / 2 => f(s[2 * j], s[2 * j + 1]))
  }

  lemma PairsSplit<T>(f: (T, T) -> T, s: seq<T>, n: nat)
    requires |s| == 4 * n
    ensures Pairs(f, s)[..n] == Pairs(f, s[..2 * n]) && Pairs(f, s)[n..] == Pairs(f, s[2 * n..])
  {
  }

  lemma TwoRoot<T>(f: (T, T) -> T, s: seq<T>, k: nat)
    requires |s| == 2 == Pow2(k)
    ensures Root(f, s, k) == f(s[0], s[1])
  {
    PowHalves(k);
    PowOne(k - 1);
  }

  lemma PowOne(k: nat)
    requires Pow2(k) == 1
    ensures k == 0
  {
  }

  lemma PowHalves(k: nat)
    requires Pow2(k) >= 2
    ensures k > 0 && Pow2(k) == 2 * Pow2(k - 1)
  {
  }

  /** Hashing neighbours level by level computes the same root as hashing halves. */
  lemma {:induction false} PairsRoot<T>(f: (T, T) -> T, s: seq<T>, k: nat)
    requires |s| == Pow2(k + 1)
    ensures Root(f, Pairs(f, s), k) == Root(f, s, k + 1)
    decreases k
  {
    hide Pairs;
    var n := Pow2(k);
    if k == 0 {
      TwoRoot(f, s, 1);
      FirstPair(f, s);
    } else {
      PairsSplit(f, s, n / 2);
      PairsRoot(f, s[..n], k - 1);
      PairsRoot(f, s[n..], k - 1);
    }
  }

  lemma FirstPair<T>(f: (T, T) -> T, s: seq<T>)
    requires |s| == 2
    ensures Pairs(f, s)[0] == f(s[0], s[1])
  {
  }

  /** The bottom full level: the first leaves alone, the others hashed in pairs. */
  function Slots<T>(f: (T, T) -> T, hashes: seq<T>, cnt: nat): (r: seq<T>)
    requires cnt <= |hashes| <= 2 * cnt
    ensures |r| == cnt
  {
    var m := 2 * cnt - |hashes|;
    seq(cnt, j requires 0 <= j < cnt => if j < m then hashes[j] else f(hashes[2 * j - m], hashes[2 * j - m + 1]))
  }

  lemma SlotsEntry<T>(f: (T, T) -> T, hashes: seq<T>, cnt: nat, j: nat)
    requires cnt <= |hashes| <= 2 * cnt && j < cnt
    ensures var m := 2 * cnt - |hashes|;
      Slots(f, hashes, cnt)[j] == if j < m then hashes[j] else f(hashes[2 * j - m], hashes[2 * j - m + 1])
  {
  }

  /** The exponent of the largest power of two below count. */
  function Level(count: nat): (k: nat)
    requires count >= 2
    ensures Pow2(k) < count <= 2 * Pow2(k)
  {
    if count == 2 then 0 else Level((count + 1) / 2) + 1
  }

  /** The root of the tree over these leaves. */
  function TreeRoot<T>(f: (T, T) -> T, hashes: seq<T>): T
    requires |hashes| > 0
  {
    if |hashes| == 1 then hashes[0]
    else Root(f, Slots(f, hashes, Pow2(Level(|hashes|))), Level(|hashes|))
  }

  lemma {:induction false} LevelUnique(count: nat, k: nat)
    requires count >= 2 && Pow2(k) < count <= 2 * Pow2(k)
    ensures k == Level(count)
  {
    var l := Level(count);
    if k < l {
      PowGrows(k + 1, l);
    } else if l < k {
      PowGrows(l + 1, k);
    }
  }

  /** A power of two leaves: the root over both halves. With three, the first stands alone. */
  lemma HalvesRoot<T>(f: (T, T) -> T, hashes: seq<T>, k: nat)
    requires |hashes| == 2 * Pow2(k)
    ensures TreeRoot(f, hashes) == f(TreeRoot(f, hashes[..Pow2(k)]), TreeRoot(f, hashes[Pow2(k)..]))
  {
    hide Root;
    FullRoot(f, hashes, k + 1);
    FullRoot(f, hashes[..Pow2(k)], k);
    FullRoot(f, hashes[Pow2(k)..], k);
    RootStep(f, hashes, k);
  }

  lemma RootStep<T>(f: (T, T) -> T, hashes: seq<T>, k: nat)
    requires |hashes| == 2 * Pow2(k)
    ensures Root(f, hashes, k + 1) == f(Root(f, hashes[..Pow2(k)], k), Root(f, hashes[Pow2(k)..], k))
  {
  }

  lemma FullRoot<T>(f: (T, T) -> T, hashes: seq<T>, k: nat)
    requires |hashes| == Pow2(k)
    ensures TreeRoot(f, hashes) == Root(f, hashes, k)
  {
    hide Root, Slots, Pairs, Pow2, Level;
    if k > 0 {
      FullLevel(k);
      LevelUnique(|hashes|, k - 1);
      SlotsArePairs(f, hashes, Pow2(k - 1));
      PairsRoot(f, hashes, k - 1);
    } else {
      SingleRoot(f, hashes);
    }
  }

  lemma SingleRoot<T>(f: (T, T) -> T, hashes: seq<T>)
    requires |hashes| == Pow2(0)
    ensures TreeRoot(f, hashes) == Root(f, hashes, 0)
  {
  }

  lemma FullLevel(k: nat)
    requires k > 0
    ensures Pow2(k) == 2 * Pow2(k - 1) && Pow2(k) >= 2
  {
  }

  lemma SlotsArePairs<T>(f: (T, T) -> T, hashes: seq<T>, cnt: nat)
    requires |hashes| == 2 * cnt
    ensures Slots(f, hashes, cnt) == Pairs(f, hashes)
  {
  }

  lemma ThreeLeaves<T>(f: (T, T) -> T, a: T, b: T, c: T)
    ensures TreeRoot(f, [a, b, c]) == f(a, f(b, c))
  {
    LevelUnique(3, 1);
    assert Slots(f, [a, b, c], 2) == [a, f(b, c)];
    RootStep(f, [a, f(b, c)], 0);
  }

  /** tree_hash_cnt: the largest power of two below count, not the one at count its comment names. */
  method TreeHashCnt(count: nat) returns (cnt: nat)
    requires 3 <= count <= 0x1000_0000
    ensures cnt == Pow2(Level(count)) && 2 <= cnt < count <= 2 * cnt
  {
    var pow := 2;
    ghost var k := 1;
    while pow < count
      invariant k > 0 && pow == Pow2(k) && Pow2(k - 1) < count
      decreases count - pow
    {
      pow := 2 * pow;
      k := k + 1;
    }
    LevelUnique(count, k - 1);
    return pow / 2;
  }

  /** The comment on tree_hash_cnt, 1 << floor(log2(count)), holds exactly for counts that are no power of two. */
  lemma CountIsFloorOfLog(count: nat, k: nat)
    requires count >= 3 && Pow2(k) <= count < 2 * Pow2(k)
    ensures Pow2(Level(count)) == Pow2(k) <==> count != Pow2(k)
  {
    if count != Pow2(k) {
      LevelUnique(count, k);
    }
  }

  /** One pass of the halving loop, overwriting the front of ints. */
  method HalveInPlace<T>(f: (T, T) -> T, ints: array<T>, cnt: nat)
    requires 2 * cnt <= ints.Length
    modifies ints
    ensures ints[..cnt] == Pairs(f, old(ints[..2 * cnt]))
  {
    hide Pairs;
    ghost var was := ints[..2 * cnt];
    for j := 0 to cnt
      invariant forall k :: 0 <= k < j ==> ints[k] == Pairs(f, was)[k]
      invariant forall k :: j <= k < 2 * cnt ==> ints[k] == was[k]
    {
      PairsEntry(f, was, j);
      ints[j] := f(ints[2 * j], ints[2 * j + 1]);
    }
  }

  lemma PairsEntry<T>(f: (T, T) -> T, s: seq<T>, j: nat)
    requires |s| % 2 == 0 && j < |s| / 2
    ensures Pairs(f, s)[j] == f(s[2 * j], s[2 * j + 1])
  {
  }

  /** The bottom level: the lone leaves copied, the others hashed in pairs. */
  method FillSlots<T>(f: (T, T) -> T, hashes: seq<T>, ints: array<T>)
    requires ints.Length <= |hashes| <= 2 * ints.Length
    modifies ints
    ensures ints[..] == Slots(f, hashes, ints.Length)
  {
    var m := 2 * ints.Length - |hashes|;
    for j := 0 to m
      invariant forall k :: 0 <= k < j ==> ints[k] == hashes[k]
    {
      ints[j] := hashes[j];
    }
    var i := m;
    for j := m to ints.Length
      invariant i == 2 * j - m
      invariant forall k :: 0 <= k < j ==> ints[k] == Slots(f, hashes, ints.Length)[k]
    {
      ints[j] := f(hashes[i], hashes[i + 1]);
      i := i + 2;
    }
  }

  /** tree_hash; zero stands for the cleared memory of the buffer. */
  method TreeHash<T>(f: (T, T) -> T, hashes: seq<T>, zero: T) returns (root: T)
    requires 0 < |hashes| <= 0x1000_0000
    ensures root == TreeRoot(f, hashes)
  {
    if |hashes| == 1 {
      return hashes[0];
    }
    if |hashes| == 2 {
      TwoLeaves(f, hashes);
      return f(hashes[0], hashes[1]);
    }
    hide Root, Pow2, Slots, TreeRoot, Level;
    var cnt := TreeHashCnt(|hashes|);
    var ints := new T[cnt](_ => zero);
    FillSlots(f, hashes, ints);
    ManyLeaves(f, hashes);
    root := FoldLevels(f, ints, Level(|hashes|));
  }

  /** The halving loop of tree_hash and the last hash after it. */
  method FoldLevels<T>(f: (T, T) -> T, ints: array<T>, ghost level: nat) returns (root: T)
    requires 2 <= ints.Length == Pow2(level)
    modifies ints
    ensures root == Root(f, old(ints[..]), level)
  {
    hide Root, Pow2, Pairs;
    ghost var k := level;
    var cnt := ints.Length;
    assert ints[..cnt] == ints[..];
    while cnt > 2
      invariant cnt == Pow2(k) && 2 <= cnt <= ints.Length
      invariant Root(f, ints[..cnt], k) == Root(f, old(ints[..]), level)
    {
      PowHalves(k);
      cnt := cnt / 2;
      ghost var was := ints[..2 * cnt];
      HalveInPlace(f, ints, cnt);
      k := k - 1;
      PairsRoot(f, was, k);
    }
    TwoRoot(f, ints[..2], k);
    return f(ints[0], ints[1]);
  }

  lemma TwoLeaves<T>(f: (T, T) -> T, hashes: seq<T>)
    requires |hashes| == 2
    ensures TreeRoot(f, hashes) == f(hashes[0], hashes[1])
  {
  }

  lemma ManyLeaves<T>(f: (T, T) -> T, hashes: seq<T>)
    requires |hashes| > 1
    ensures TreeRoot(f, hashes) == Root(f, Slots(f, hashes, Pow2(Level(|hashes|))), Level(|hashes|))
  {
  }

  // ---- Paths and branches ----

  /** The pair of a level from m up that idx is in becomes slot m + .., and everything below m stays in place. */
  function LevelIndex(m: nat, idx: nat): (slot: nat)
    ensures idx < m ==> slot == idx
    ensures idx >= m ==> m <= slot <= idx
  {
    if idx < m then idx else m + (idx - m) / 2
  }

  /** Right (1) or left (0) in its pair; nothing for a lone leaf. */
  function LevelBit(m: nat, idx: nat): (bits: seq<nat>)
    ensures |bits| <= 1 && forall k :: 0 <= k < |bits| ==> bits[k] <= 1
  {
    if idx < m then [] else [(idx - m) % 2]
  }

  /** The turns from slot up to the root of a full level of 2^k slots. */
  function SlotSteps(slot: nat, k: nat): (bits: seq<nat>)
    ensures |bits| == k && forall j :: 0 <= j < |bits| ==> bits[j] <= 1
    decreases k
  {
    if k == 0 then [] else [slot % 2] + SlotSteps(slot / 2, k - 1)
  }

  /** How many of count leaves stand alone on the bottom full level. */
  function Alone(count: nat): (m: nat)
    requires count >= 2
    ensures m + 2 * (Pow2(Level(count)) - m) == count
  {
    2 * Pow2(Level(count)) - count
  }

  /** The turns from leaf idx up to the root. */
  function Steps(count: nat, idx: nat): (bits: seq<nat>)
    requires idx < count
    ensures forall j :: 0 <= j < |bits| ==> bits[j] <= 1
  {
    if count == 1 then []
    else LevelBit(Alone(count), idx) + SlotSteps(LevelIndex(Alone(count), idx), Level(count))
  }

  /** Appending turns to a path, each below the one before. */
  function Extend(path: nat, bits: seq<nat>): (v: nat)
    decreases |bits|
  {
    if |bits| == 0 then path else Extend(2 * path + bits[0], bits[1..])
  }

  /** The turns as a number, the first as its highest bit. */
  function PathOf(bits: seq<nat>): nat { Extend(0, bits) }

  /** The siblings met on the way up from slot. */
  function SlotSiblings<T>(f: (T, T) -> T, s: seq<T>, slot: nat, k: nat): (r: seq<T>)
    requires |s| == Pow2(k) && slot < |s|
    ensures |r| == k
    decreases k
  {
    if k == 0 then []
    else [s[Sibling(0, slot)]] + SlotSiblings(f, Pairs(f, s), slot / 2, k - 1)
  }

  /** The other member of idx's pair on a level whose pairs start at m. */
  function Sibling(m: nat, idx: nat): nat
    requires idx >= m
  {
    if (idx - m) % 2 == 0 then idx + 1 else idx - 1
  }

  /** The authentication branch of leaf idx, from its own sibling upwards. */
  function Siblings<T>(f: (T, T) -> T, hashes: seq<T>, idx: nat): (r: seq<T>)
    requires idx < |hashes|
    ensures |r| == |Steps(|hashes|, idx)|
  {
    if |hashes| == 1 then []
    else
      var m, k := Alone(|hashes|), Level(|hashes|);
      (if idx < m then [] else [hashes[Sibling(m, idx)]])
      + SlotSiblings(f, Slots(f, hashes, Pow2(k)), LevelIndex(m, idx), k)
  }

  /** Hashing up from h with the branch entries on the sides the turns say. */
  function Climb<T>(f: (T, T) -> T, h: T, branch: seq<T>, bits: seq<nat>): T
    requires |branch| == |bits|
  {
    if |bits| == 0 then h
    else Climb(f, if bits[0] == 1 then f(branch[0], h) else f(h, branch[0]), branch[1..], bits[1..])
  }

  lemma ClimbStep<T>(f: (T, T) -> T, h: T, x: T, rest: seq<T>, bit: nat, bits: seq<nat>)
    requires |rest| == |bits|
    ensures Climb(f, h, [x] + rest, [bit] + bits) == Climb(f, if bit == 1 then f(x, h) else f(h, x), rest, bits)
  {
    assert ([x] + rest)[1..] == rest && ([bit] + bits)[1..] == bits;
  }

  lemma PairAt<T>(f: (T, T) -> T, s: seq<T>, slot: nat)
    requires |s| % 2 == 0 && slot < |s|
    ensures Sibling(0, slot) < |s|
    ensures var x := s[Sibling(0, slot)];
      Pairs(f, s)[slot / 2] == if slot % 2 == 1 then f(x, s[slot]) else f(s[slot], x)
  {
  }

  lemma {:induction false} ClimbSlot<T>(f: (T, T) -> T, s: seq<T>, slot: nat, k: nat)
    requires |s| == Pow2(k) && slot < |s|
    ensures Climb(f, s[slot], SlotSiblings(f, s, slot, k), SlotSteps(slot, k)) == Root(f, s, k)
    decreases k
  {
    hide Climb, Pairs, Sibling;
    if k == 0 {
      ClimbNothing(f, s[slot]);
    } else {
      PairAt(f, s, slot);
      ClimbStep(f, s[slot], s[Sibling(0, slot)], SlotSiblings(f, Pairs(f, s), slot / 2, k - 1), slot % 2,
        SlotSteps(slot / 2, k - 1));
      ClimbSlot(f, Pairs(f, s), slot / 2, k - 1);
      PairsRoot(f, s, k - 1);
    }
  }

  lemma ClimbNothing<T>(f: (T, T) -> T, h: T)
    ensures Climb(f, h, [], []) == h
  {
  }

  /** Where a leaf sits on the bottom full level, alone or hashed with its sibling. */
  lemma LeafSlot<T>(f: (T, T) -> T, hashes: seq<T>, idx: nat)
    requires 1 < |hashes| && idx < |hashes|
    ensures var m, slots := Alone(|hashes|), Slots(f, hashes, Pow2(Level(|hashes|)));
      && LevelIndex(m, idx) < |slots|
      && (idx < m ==> slots[LevelIndex(m, idx)] == hashes[idx])
      && (idx >= m ==> Sibling(m, idx) < |hashes|)
      && (idx >= m && (idx - m) % 2 == 1 ==> slots[LevelIndex(m, idx)] == f(hashes[Sibling(m, idx)], hashes[idx]))
      && (idx >= m && (idx - m) % 2 == 0 ==> slots[LevelIndex(m, idx)] == f(hashes[idx], hashes[Sibling(m, idx)]))
  {
    hide Level;
  }

  /** Climbing any leaf's own branch along its own path arrives at the root. */
  lemma ClimbLeaf<T>(f: (T, T) -> T, hashes: seq<T>, idx: nat)
    requires idx < |hashes|
    ensures Climb(f, hashes[idx], Siblings(f, hashes, idx), Steps(|hashes|, idx)) == TreeRoot(f, hashes)
  {
    hide Climb, Slots, Level, Root, SlotSiblings, SlotSteps, Sibling, Alone, LevelIndex;
    if |hashes| == 1 {
      ClimbNothing(f, hashes[idx]);
    } else {
      var m, k := Alone(|hashes|), Level(|hashes|);
      var slots, slot := Slots(f, hashes, Pow2(k)), LevelIndex(m, idx);
      LeafSlot(f, hashes, idx);
      ClimbSlot(f, slots, slot, k);
      if idx >= m {
        ClimbStep(f, hashes[idx], hashes[Sibling(m, idx)], SlotSiblings(f, slots, slot, k), (idx - m) % 2,
          SlotSteps(slot, k));
      } else {
        assert [] + SlotSiblings(f, slots, slot, k) == SlotSiblings(f, slots, slot, k);
        assert [] + SlotSteps(slot, k) == SlotSteps(slot, k);
      }
    }
  }

  ghost predicate Injective<T(!new)>(f: (T, T) -> T) {
    forall a, b, c, d :: f(a, b) == f(c, d) ==> a == c && b == d
  }

  /** Two different pairs with one hash. */
  predicate Collide<T(==)>(f: (T, T) -> T, x: (T, T), y: (T, T)) { x != y && f(x.0, x.1) == f(y.0, y.1) }

  /**
    Climbs along the same turns that meet started from the same place beside the same entries, or the hash collides.
    */
  lemma {:induction false} ClimbCollision<T>(f: (T, T) -> T, g: T, a: seq<T>, h: T, b: seq<T>, bits: seq<nat>)
    returns (x: (T, T), y: (T, T))
    requires |a| == |b| == |bits| && Climb(f, g, a, bits) == Climb(f, h, b, bits)
    ensures Collide(f, x, y) || (g == h && a == b)
    decreases |bits|
  {
    if |bits| == 0 {
      x, y := (g, g), (h, h);
    } else {
      x, y := if bits[0] == 1 then (a[0], g) else (g, a[0]), if bits[0] == 1 then (b[0], h) else (h, b[0]);
      assert a == [a[0]] + a[1..] && b == [b[0]] + b[1..];
      if x == y || f(x.0, x.1) != f(y.0, y.1) {
        x, y := ClimbCollision(f, f(x.0, x.1), a[1..], f(y.0, y.1), b[1..], bits[1..]);
      }
    }
  }

  // ---- tree_path ----

  lemma ExtendStep(path: nat, bit: nat, bits: seq<nat>)
    ensures Extend(path, [bit] + bits) == Extend(2 * path + bit, bits)
  {
    assert ([bit] + bits)[1..] == bits;
  }

  /** A pass over the pairs of a level of cnt slots that start at m. */
  method PathLevel(m: nat, cnt: nat, idx0: nat, path0: nat) returns (idx: nat, path: nat)
    requires m <= cnt
    ensures idx0 < 2 * cnt - m ==> idx == LevelIndex(m, idx0)
    ensures m <= idx0 < 2 * cnt - m ==> path == 2 * path0 + (idx0 - m) % 2
    ensures idx0 < m ==> path == path0
    ensures idx0 >= 2 * cnt - m ==> idx == idx0 && path == path0
  {
    idx, path := idx0, path0;
    var i := m;
    for j := m to cnt
      invariant i == 2 * j - m
      invariant idx0 < m || idx0 >= i ==> idx == idx0 && path == path0
      invariant m <= idx0 < i ==> idx == m + (idx0 - m) / 2 && path == 2 * path0 + (idx0 - m) % 2
    {
      if idx == i || idx == i + 1 {
        path := 2 * path + if idx == i then 0 else 1;
        idx := j;
      }
      i := i + 2;
    }
  }

  /** tree_path: the path of a leaf; an index past the leaves gets 0, or 1 in a tree of two. */
  method TreePath(count: nat, idx: nat) returns (ok: bool, path: nat)
    requires count <= 0x1000_0000
    ensures ok <==> count > 0
    ensures idx < count ==> path == PathOf(Steps(count, idx))
    ensures 0 < count <= idx ==> path == if count == 2 then 1 else 0
  {
    path := 0;
    if count == 0 {
      return false, path;
    }
    if count == 1 {
      return true, 0;
    }
    if count == 2 {
      TwoSteps();
      return true, if idx == 0 then 0 else 1;
    }
    hide Level, Extend, SlotSteps, Pow2, Steps;
    var cnt := TreeHashCnt(count);
    var slot: nat, first: nat := PathLevel(2 * cnt - count, cnt, idx, 0);
    if idx < count {
      FirstTurn(count, idx);
    }
    path := FoldPath(cnt, slot, first, Level(count));
    ok := true;
  }

  /** The halving loop of tree_path and the last turn after it. */
  method FoldPath(cnt0: nat, slot0: nat, path0: nat, ghost level: nat) returns (path: nat)
    requires 2 <= cnt0 == Pow2(level)
    ensures slot0 < cnt0 ==> path == Extend(path0, SlotSteps(slot0, level))
    ensures slot0 >= cnt0 ==> path == path0
  {
    hide Extend, SlotSteps, Pow2;
    path := path0;
    var cnt: nat, slot: nat := cnt0, slot0;
    ghost var k := level;
    while cnt > 2
      invariant cnt == Pow2(k) && 2 <= cnt <= cnt0
      invariant slot0 < cnt0 ==>
        slot < cnt && Extend(path, SlotSteps(slot, k)) == Extend(path0, SlotSteps(slot0, level))
      invariant slot0 >= cnt0 ==> slot == slot0 && path == path0
    {
      PowHalves(k);
      cnt := cnt / 2;
      NextTurn(path, slot, k);
      slot, path := PathLevel(0, cnt, slot, path);
      k := k - 1;
    }
    LastTurn(path, slot, k);
    if slot == 0 || slot == 1 {
      path := 2 * path + if slot == 0 then 0 else 1;
    }
  }

  lemma TwoSteps()
    ensures PathOf(Steps(2, 0)) == 0 && PathOf(Steps(2, 1)) == 1
    ensures Steps(2, 0) == [0] && Steps(2, 1) == [1]
  {
    assert Alone(2) == 0 && Level(2) == 0;
    assert Steps(2, 0) == [0] && Steps(2, 1) == [1];
  }

  lemma FirstTurn(count: nat, idx: nat)
    requires 1 < count && idx < count
    ensures LevelIndex(Alone(count), idx) < Pow2(Level(count))
    ensures PathOf(Steps(count, idx)) ==
      Extend(if idx < Alone(count) then 0 else (idx - Alone(count)) % 2,
        SlotSteps(LevelIndex(Alone(count), idx), Level(count)))
  {
    var m := Alone(count);
    var rest := SlotSteps(LevelIndex(m, idx), Level(count));
    if idx < m {
      assert [] + rest == rest;
    } else {
      ExtendStep(0, (idx - m) % 2, rest);
    }
  }

  lemma NextTurn(path: nat, slot: nat, k: nat)
    requires k > 0
    ensures Extend(path, SlotSteps(slot, k)) == Extend(2 * path + slot % 2, SlotSteps(slot / 2, k - 1))
  {
    ExtendStep(path, slot % 2, SlotSteps(slot / 2, k - 1));
  }

  lemma LastTurn(path: nat, slot: nat, k: nat)
    requires Pow2(k) == 2
    ensures Extend(path, SlotSteps(slot, k)) == 2 * path + slot % 2
  {
    PowHalves(k);
    PowOne(k - 1);
    NextTurn(path, slot, k);
  }

  // ---- tree_branch ----

  /** The first index of a hash among the leaves, or their number. */
  function IndexOf<T(==)>(hashes: seq<T>, h: T): (idx: nat)
    ensures idx <= |hashes| && (idx < |hashes| <==> h in hashes)
    ensures idx < |hashes| ==> hashes[idx] == h
    ensures forall j :: 0 <= j < idx ==> hashes[j] != h
  {
    if |hashes| == 0 || hashes[0] == h then 0 else 1 + IndexOf(hashes[1..], h)
  }

  /** The bottom level of tree_branch: slots filled, and the leaf's own sibling taken unless it stands alone. */
  method BranchBottom<T>(f: (T, T) -> T, hashes: seq<T>, ints: array<T>, branch: array<T>, idx0: nat)
    returns (depth: nat, path: nat, idx: nat)
    requires ints != branch && ints.Length < |hashes| <= 2 * ints.Length && idx0 < |hashes| && branch.Length > 0
    modifies ints, branch
    ensures ints[..] == Slots(f, hashes, ints.Length)
    ensures var m := 2 * ints.Length - |hashes|;
      && idx == LevelIndex(m, idx0) && depth == (if idx0 < m then 0 else 1)
      && (idx0 < m ==> path == 0)
      && (idx0 >= m ==> path == (idx0 - m) % 2 && Sibling(m, idx0) < |hashes| && branch[0] == hashes[Sibling(m, idx0)])
  {
    hide Slots, Sibling;
    depth, path, idx := 0, 0, idx0;
    var m := 2 * ints.Length - |hashes|;
    for j := 0 to m
      invariant forall k :: 0 <= k < j ==> ints[k] == Slots(f, hashes, ints.Length)[k]
    {
      SlotsEntry(f, hashes, ints.Length, j);
      ints[j] := hashes[j];
    }
    BottomSibling(m, idx0);
    var i := m;
    for j := m to ints.Length
      invariant i == 2 * j - m
      invariant forall k :: 0 <= k < j ==> ints[k] == Slots(f, hashes, ints.Length)[k]
      invariant idx0 < m || idx0 >= i ==> idx == idx0 && path == 0 && depth == 0
      invariant m <= idx0 < i ==> idx == m + (idx0 - m) / 2 && depth == 1 && path == (idx0 - m) % 2
      invariant m <= idx0 < i ==> Sibling(m, idx0) < |hashes| && branch[0] == hashes[Sibling(m, idx0)]
    {
      SlotsEntry(f, hashes, ints.Length, j);
      if idx == i || idx == i + 1 {
        branch[depth] := hashes[if idx == i then i + 1 else i];
        depth := depth + 1;
        path := 2 * path + if idx == i then 0 else 1;
        idx := j;
      }
      ints[j] := f(hashes[i], hashes[i + 1]);
      i := i + 2;
    }
  }

  lemma BottomSibling(m: nat, idx: nat)
    ensures idx >= m ==> Sibling(m, idx) == if (idx - m) % 2 == 0 then idx + 1 else idx - 1
  {
  }

  /** The part of a tree_branch pass that follows one leaf: its sibling into the branch, its turn into the path. */
  method TakeTurn<T>(branch: array<T>, sibling: T, depth0: nat, path0: nat, right: bool) returns (depth: nat, path: nat)
    requires depth0 < branch.Length
    modifies branch
    ensures depth == depth0 + 1 && path == 2 * path0 + (if right then 1 else 0)
    ensures branch[..] == old(branch[..])[depth0 := sibling]
  {
    branch[depth0] := sibling;
    return depth0 + 1, 2 * path0 + if right then 1 else 0;
  }

  /** One halving pass of tree_branch. */
  method BranchLevel<T>(f: (T, T) -> T, ints: array<T>, cnt: nat, branch: array<T>, depth0: nat, path0: nat, idx0: nat)
    returns (depth: nat, path: nat, idx: nat)
    requires ints != branch && 2 * cnt <= ints.Length && idx0 < 2 * cnt && depth0 < branch.Length
    modifies ints, branch
    ensures ints[..cnt] == Pairs(f, old(ints[..2 * cnt]))
    ensures depth == depth0 + 1 && path == 2 * path0 + idx0 % 2 && idx == idx0 / 2
    ensures Sibling(0, idx0) < 2 * cnt && branch[..] == old(branch[..])[depth0 := old(ints[Sibling(0, idx0)])]
  {
    hide Pairs, Sibling;
    depth, path, idx := depth0, path0, idx0;
    SiblingIs(idx0);
    ghost var was := ints[..2 * cnt];
    var i := 0;
    for j := 0 to cnt
      invariant i == 2 * j
      invariant forall k :: 0 <= k < j ==> ints[k] == Pairs(f, was)[k]
      invariant forall k :: j <= k < 2 * cnt ==> ints[k] == was[k]
      invariant idx0 >= i ==> depth == depth0 && path == path0 && idx == idx0 && branch[..] == old(branch[..])
      invariant idx0 < i ==> depth == depth0 + 1 && path == 2 * path0 + idx0 % 2 && idx == idx0 / 2
      invariant idx0 < i ==> branch[..] == old(branch[..])[depth0 := was[Sibling(0, idx0)]]
    {
      PairsEntry(f, was, j);
      if idx == i || idx == i + 1 {
        depth, path := TakeTurn(branch, ints[if idx == i then i + 1 else i], depth, path, idx == i + 1);
        idx := j;
      }
      ints[j] := f(ints[i], ints[i + 1]);
      i := i + 2;
    }
  }

  lemma SiblingIs(idx: nat)
    ensures Sibling(0, idx) == if idx % 2 == 0 then idx + 1 else idx - 1
  {
  }

  lemma NextSibling<T>(f: (T, T) -> T, s: seq<T>, slot: nat, k: nat)
    requires k > 0 && |s| == Pow2(k) && slot < |s|
    ensures |s| % 2 == 0 && |Pairs(f, s)| == Pow2(k - 1) && slot / 2 < |Pairs(f, s)| && Sibling(0, slot) < |s|
    ensures SlotSiblings(f, s, slot, k) == [s[Sibling(0, slot)]] + SlotSiblings(f, Pairs(f, s), slot / 2, k - 1)
  {
  }

  /** The halving loop of tree_branch and the last turn after it. */
  method FoldBranch<T>(f: (T, T) -> T, ints: array<T>, branch: array<T>, depth0: nat, path0: nat, idx0: nat,
      ghost level: nat)
    returns (depth: nat, path: nat)
    requires ints != branch && 2 <= ints.Length == Pow2(level) && idx0 < ints.Length && depth0 + level <= branch.Length
    modifies ints, branch
    ensures depth == depth0 + level && path == Extend(path0, SlotSteps(idx0, level))
    ensures branch[..depth] == old(branch[..depth0]) + SlotSiblings(f, old(ints[..]), idx0, level)
  {
    hide Extend, SlotSteps, Pow2, SlotSiblings, Pairs, Sibling;
    depth, path := depth0, path0;
    var idx: nat := idx0;
    var cnt := ints.Length;
    ghost var k := level;
    assert ints[..cnt] == ints[..];
    while cnt > 2
      invariant cnt == Pow2(k) && 2 <= cnt <= ints.Length && idx < cnt && depth + k == depth0 + level
      invariant Extend(path, SlotSteps(idx, k)) == Extend(path0, SlotSteps(idx0, level))
      invariant branch[..depth] + SlotSiblings(f, ints[..cnt], idx, k)
             == old(branch[..depth0]) + SlotSiblings(f, old(ints[..]), idx0, level)
    {
      PowHalves(k);
      cnt := cnt / 2;
      NextTurn(path, idx, k);
      NextSibling(f, ints[..2 * cnt], idx, k);
      ghost var before := branch[..depth];
      ghost var sibling := ints[..2 * cnt][Sibling(0, idx)];
      depth, path, idx := BranchLevel(f, ints, cnt, branch, depth, path, idx);
      k := k - 1;
      assert branch[..depth] == before + [sibling];
      Reassociate(before, sibling, SlotSiblings(f, ints[..cnt], idx, k));
    }
    LastTurn(path, idx, k);
    LastSibling(f, ints[..2], idx, k);
    ghost var before := branch[..depth];
    if idx == 0 || idx == 1 {
      depth, path := TakeTurn(branch, ints[if idx == 0 then 1 else 0], depth, path, idx == 1);
    }
    assert branch[..depth] == before + [ints[1 - idx]];
  }

  lemma Reassociate<T>(a: seq<T>, x: T, b: seq<T>)
    ensures a + ([x] + b) == a + [x] + b
  {
  }

  lemma LastSibling<T>(f: (T, T) -> T, s: seq<T>, slot: nat, k: nat)
    requires |s| == 2 == Pow2(k) && slot < 2
    ensures k == 1 && SlotSiblings(f, s, slot, k) == [s[1 - slot]]
  {
    PowHalves(k);
    PowOne(k - 1);
    NextSibling(f, s, slot, k);
  }

  /** tree_branch on more than two leaves: the bottom pass and the passes above it. */
  method BranchOf<T>(f: (T, T) -> T, hashes: seq<T>, idx: nat, branch: array<T>, zero: T)
    returns (depth: nat, path: nat)
    requires 2 < |hashes| <= 0x1000_0000 && |hashes| <= Pow2(branch.Length) && idx < |hashes|
    modifies branch
    ensures depth == |Steps(|hashes|, idx)| <= branch.Length && path == PathOf(Steps(|hashes|, idx))
    ensures branch[..depth] == Siblings(f, hashes, idx)
  {
    hide Level, Extend, SlotSteps, Pow2, SlotSiblings, Slots, PathOf;
    EnoughRoom(|hashes|, idx, branch.Length);
    var cnt := TreeHashCnt(|hashes|);
    var ints := new T[cnt](_ => zero);
    var slot;
    depth, path, slot := BranchBottom(f, hashes, ints, branch, idx);
    FirstTurn(|hashes|, idx);
    ghost var first := branch[..depth];
    depth, path := FoldBranch(f, ints, branch, depth, path, slot, Level(|hashes|));
  }

  /** tree_branch: finds the leaf, and leaves its branch and path; false when it is not among the leaves. */
  method TreeBranch<T(==)>(f: (T, T) -> T, hashes: seq<T>, hash: T, branch: array<T>, zero: T)
    returns (ok: bool, depth: nat, path: nat)
    requires |hashes| <= 0x1000_0000 && |hashes| <= Pow2(branch.Length)
    modifies branch
    ensures ok <==> hash in hashes
    ensures ok ==> depth == |Steps(|hashes|, IndexOf(hashes, hash))| <= branch.Length
    ensures ok ==> path == PathOf(Steps(|hashes|, IndexOf(hashes, hash)))
    ensures ok ==> branch[..depth] == Siblings(f, hashes, IndexOf(hashes, hash))
  {
    hide Level, Pow2, Siblings, Steps, PathOf, IndexOf;
    ok, depth, path := false, 0, 0;
    var idx := 0;
    while idx < |hashes| && hashes[idx] != hash
      invariant idx <= |hashes| && forall j :: 0 <= j < idx ==> hashes[j] != hash
    {
      idx := idx + 1;
    }
    assert idx == IndexOf(hashes, hash);
    if idx == |hashes| {
      return;
    }
    ok := true;
    if |hashes| == 1 {
      NoTurns(f, hashes);
      return;
    }
    if |hashes| == 2 {
      EnoughRoom(|hashes|, idx, branch.Length);
      TwoSteps();
      TwoSiblings(f, hashes, idx);
      depth, path := TakeTurn(branch, hashes[1 - idx], 0, 0, idx != 0);
      assert branch[..1] == [hashes[1 - idx]];
      return;
    }
    depth, path := BranchOf(f, hashes, idx, branch, zero);
  }

  lemma NoTurns<T>(f: (T, T) -> T, hashes: seq<T>)
    requires |hashes| == 1
    ensures Steps(1, 0) == [] && PathOf([]) == 0 && Siblings(f, hashes, 0) == []
  {
  }

  lemma TwoSiblings<T>(f: (T, T) -> T, hashes: seq<T>, idx: nat)
    requires |hashes| == 2 && idx < 2
    ensures Siblings(f, hashes, idx) == [hashes[1 - idx]]
  {
    assert Alone(2) == 0 && Level(2) == 0;
  }

  /** A branch buffer for count leaves holds a sibling for every turn. */
  lemma EnoughRoom(count: nat, idx: nat, room: nat)
    requires 1 < count <= Pow2(room) && idx < count
    ensures |Steps(count, idx)| <= Level(count) + 1 <= room
  {
    if room <= Level(count) {
      PowGrows(room, Level(count));
    }
  }

  // ---- tree_branch_hash and is_branch_in_tree ----

  /** The turns a path of this depth stands for, the first in its highest bit. */
  function BitsOf(path: nat, depth: nat): (bits: seq<nat>)
    ensures |bits| == depth && forall d :: 0 <= d < depth ==> bits[d] <= 1
  {
    seq(depth, d requires 0 <= d < depth => path / Pow2(depth - d - 1) % 2)
  }

  lemma {:induction false} ExtendTop(path: nat, bits: seq<nat>)
    requires forall d :: 0 <= d < |bits| ==> bits[d] <= 1
    ensures Extend(path, bits) / Pow2(|bits|) == path
    decreases |bits|
  {
    if |bits| > 0 {
      ExtendTop(2 * path + bits[0], bits[1..]);
      HalvedQuotient(Extend(path, bits), Pow2(|bits| - 1));
    }
  }

  lemma {:induction false} ExtendBit(path: nat, bits: seq<nat>, d: nat)
    requires d < |bits| && forall k :: 0 <= k < |bits| ==> bits[k] <= 1
    ensures Extend(path, bits) / Pow2(|bits| - d - 1) % 2 == bits[d]
    decreases |bits|
  {
    if d == 0 {
      ExtendTop(2 * path + bits[0], bits[1..]);
    } else {
      ExtendBit(2 * path + bits[0], bits[1..], d - 1);
    }
  }

  /** A path read back turn by turn. */
  lemma PathBits(bits: seq<nat>)
    requires forall d :: 0 <= d < |bits| ==> bits[d] <= 1
    ensures BitsOf(PathOf(bits), |bits|) == bits
  {
    forall d | 0 <= d < |bits| ensures BitsOf(PathOf(bits), |bits|)[d] == bits[d] {
      ExtendBit(0, bits, d);
    }
  }

  lemma Pow28()
    ensures Pow2(28) == 0x1000_0000
  {
    SmallPowers();
    assert Pow2(7) == 2 * Pow2(6);
    PowSum(7, 7);
    PowSum(14, 14);
  }

  lemma ZeroQuotient(x: nat, p: nat)
    requires p > 0 && x / p == 0
    ensures x < p
  {
  }

  lemma DepthFits(count: nat, idx: nat)
    requires idx < count <= 0x1000_0000
    ensures |Steps(count, idx)| <= 28
  {
    hide Pow2, Level;
    Pow28();
    if count > 1 {
      EnoughRoom(count, idx, 28);
    }
  }

  /** The path of a leaf fits the 32 bits it is kept in. */
  lemma PathFits(count: nat, idx: nat)
    requires idx < count <= 0x1000_0000
    ensures |Steps(count, idx)| <= 28 && PathOf(Steps(count, idx)) < 0x1_0000_0000
  {
    hide Pow2, Steps;
    Pow28();
    var bits := Steps(count, idx);
    DepthFits(count, idx);
    ExtendTop(0, bits);
    ZeroQuotient(Extend(0, bits), Pow2(|bits|));
    PowGrows(|bits|, 28);
  }

  /** tree_branch_hash */
  method TreeBranchHash<T>(f: (T, T) -> T, hash: T, branch: seq<T>, depth: nat, path: nat) returns (root: T)
    requires depth <= |branch| && depth <= 32
    ensures root == Climb(f, hash, branch[..depth], BitsOf(path, depth))
  {
    hide Pow2;
    root := hash;
    ghost var bits := BitsOf(path, depth);
    assert branch[0..depth] == branch[..depth] && bits[0..] == bits;
    for d := 0 to depth
      invariant Climb(f, root, branch[d..depth], bits[d..]) == Climb(f, hash, branch[..depth], bits)
    {
      assert branch[d..depth] == [branch[d]] + branch[d + 1..depth] && bits[d..] == [bits[d]] + bits[d + 1..];
      ClimbStep(f, root, branch[d], branch[d + 1..depth], bits[d], bits[d + 1..]);
      if path / Pow2(depth - d - 1) % 2 == 1 {
        root := f(branch[d], root);
      } else {
        root := f(root, branch[d]);
      }
    }
  }

  /** is_branch_in_tree */
  method IsBranchInTree<T(==)>(f: (T, T) -> T, hash: T, root: T, branch: seq<T>, depth: nat, path: nat)
    returns (ok: bool)
    requires depth <= |branch| && depth <= 32
    ensures ok <==> Climb(f, hash, branch[..depth], BitsOf(path, depth)) == root
  {
    var res := TreeBranchHash(f, hash, branch, depth, path);
    ok := res == root;
  }

  /** The branch and path of any leaf are accepted against the tree's root. */
  lemma BranchAccepted<T>(f: (T, T) -> T, hashes: seq<T>, idx: nat, branch: seq<T>, depth: nat, path: nat)
    requires idx < |hashes| && depth == |Steps(|hashes|, idx)| <= |branch| && path == PathOf(Steps(|hashes|, idx))
    requires branch[..depth] == Siblings(f, hashes, idx)
    ensures Climb(f, hashes[idx], branch[..depth], BitsOf(path, depth)) == TreeRoot(f, hashes)
  {
    hide Climb, TreeRoot, Steps, Siblings, BitsOf;
    PathBits(Steps(|hashes|, idx));
    ClimbLeaf(f, hashes, idx);
  }

  /**
    What is accepted at the depth and path of a leaf is that leaf beside its true siblings, or else two different pairs
    are found that the hash cannot tell apart.
    */
  lemma BranchOrCollision<T>(f: (T, T) -> T, hashes: seq<T>, idx: nat, hash: T, branch: seq<T>, depth: nat, path: nat)
    returns (x: (T, T), y: (T, T))
    requires idx < |hashes| && depth == |Steps(|hashes|, idx)| <= |branch| && path == PathOf(Steps(|hashes|, idx))
    requires Climb(f, hash, branch[..depth], BitsOf(path, depth)) == TreeRoot(f, hashes)
    ensures Collide(f, x, y) || (hash == hashes[idx] && branch[..depth] == Siblings(f, hashes, idx))
  {
    hide Climb, TreeRoot, Steps, Siblings, BitsOf;
    var bits := Steps(|hashes|, idx);
    PathBits(bits);
    ClimbLeaf(f, hashes, idx);
    x, y := ClimbCollision(f, hash, branch[..depth], hashes[idx], Siblings(f, hashes, idx), bits);
  }

  /** With an injective hash there is nothing but the leaf and its siblings. */
  lemma BranchSound<T(!new)>(f: (T, T) -> T, hashes: seq<T>, idx: nat, hash: T, branch: seq<T>, depth: nat, path: nat)
    requires Injective(f) && idx < |hashes|
    requires depth == |Steps(|hashes|, idx)| <= |branch| && path == PathOf(Steps(|hashes|, idx))
    requires Climb(f, hash, branch[..depth], BitsOf(path, depth)) == TreeRoot(f, hashes)
    ensures hash == hashes[idx] && branch[..depth] == Siblings(f, hashes, idx)
  {
    hide Climb, TreeRoot, Steps, Siblings, BitsOf;
    var x, y := BranchOrCollision(f, hashes, idx, hash, branch, depth, path);
  }

  lemma {:induction false} SlotStepsUnique(i: nat, j: nat, k: nat)
    requires i < Pow2(k) && j < Pow2(k) && SlotSteps(i, k) == SlotSteps(j, k)
    ensures i == j
    decreases k
  {
    if k > 0 {
      assert SlotSteps(i, k)[1..] == SlotSteps(i / 2, k - 1) && SlotSteps(j, k)[1..] == SlotSteps(j / 2, k - 1);
      assert SlotSteps(i, k)[0] == i % 2 && SlotSteps(j, k)[0] == j % 2;
      SlotStepsUnique(i / 2, j / 2, k - 1);
    }
  }

  lemma StepsUnique(count: nat, i: nat, j: nat)
    requires i < count && j < count && Steps(count, i) == Steps(count, j)
    ensures i == j
  {
    hide Level, SlotSteps;
    if count > 1 {
      var m, k := Alone(count), Level(count);
      TurnsOf(count, i);
      TurnsOf(count, j);
      SlotStepsUnique(LevelIndex(m, i), LevelIndex(m, j), k);
    }
  }

  lemma TurnsOf(count: nat, i: nat)
    requires i < count && count > 1
    ensures var m, k, bits := Alone(count), Level(count), Steps(count, i);
      && LevelIndex(m, i) < Pow2(k) && k <= |bits| && bits[|bits| - k..] == SlotSteps(LevelIndex(m, i), k)
      && (i < m ==> |bits| == k) && (i >= m ==> |bits| == k + 1 && bits[0] == (i - m) % 2)
  {
    hide Level, SlotSteps;
  }

  /** Depth and path belong to one leaf only. */
  lemma PathIdentifiesLeaf(count: nat, i: nat, j: nat)
    requires i < count && j < count
    requires |Steps(count, i)| == |Steps(count, j)| && PathOf(Steps(count, i)) == PathOf(Steps(count, j))
    ensures i == j
  {
    hide Steps, PathOf, BitsOf;
    PathBits(Steps(count, i));
    PathBits(Steps(count, j));
    StepsUnique(count, i, j);
  }
}
