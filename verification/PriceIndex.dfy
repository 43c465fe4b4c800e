/** The sparse four-tier trie over 32-bit prices (src/book/order_book.cpp:58-168). */
module PriceTrie {
  import opened Bits
  import opened Common
  import opened Masks

  /** Byte `shift / 8` of a price, as the source extracts it. */
  function ByteAt(price: Price, shift: nat): (b: Byte)
    ensures b == Shr(price, shift) % 0x100
  {
    hide BitAnd, Shr;
    LowByte(Shr(price, shift));
    BitAnd(Shr(price, shift), 0xff)
  }

  /** `x >> n`. */
  function Shr(x: nat, n: nat): nat {
    Quotient(x, Pow2(n))
  }

  /** Division, kept apart from the powers of two it is used with. */
  function Quotient(x: nat, d: nat): nat
    requires d > 0
  {
    x / d
  }

  lemma LowByte(x: nat)
    ensures BitAnd(x, 0xff) == x % 0x100
  {
    hide BitAnd, Pow2;
    AndLowMask(x, 8);
    Pow2Values();
  }

  /** The price with the given four bytes, as the source puts it together. */
  function Compose(b3: Byte, b2: Byte, b1: Byte, b0: Byte): (p: Price)
    ensures p == 0x100_0000 * b3 + 0x1_0000 * b2 + 0x100 * b1 + b0
  {
    hide BitOr, Pow2;
    ComposeIs(b3, b2, b1, b0);
    BitOr(BitOr(BitOr(Shl(b3, 24), Shl(b2, 16)), Shl(b1, 8)), b0)
  }

  lemma ComposeIs(b3: Byte, b2: Byte, b1: Byte, b0: Byte)
    ensures BitOr(BitOr(BitOr(Shl(b3, 24), Shl(b2, 16)), Shl(b1, 8)), b0)
            == 0x100_0000 * b3 + 0x1_0000 * b2 + 0x100 * b1 + b0
  {
    hide BitOr, Pow2;
    Pow2Values();
    OrDisjoint(b3, b2 * Pow2(16), 24);
    OrDisjoint(b3 * 0x100 + b2, b1 * Pow2(8), 16);
    OrDisjoint(b3 * 0x1_0000 + b2 * 0x100 + b1, b0, 8);
  }

  /** `x << n`, wide enough not to lose bits. */
  function Shl(x: nat, n: nat): nat {
    x * Pow2(n)
  }

  /** A price as its four bytes, most significant first. */
  datatype Key = Key(b3: Byte, b2: Byte, b1: Byte, b0: Byte) {
    predicate Below(k: Key) {
      || b3 < k.b3
      || (b3 == k.b3 && b2 < k.b2)
      || (b3 == k.b3 && b2 == k.b2 && b1 < k.b1)
      || (b3 == k.b3 && b2 == k.b2 && b1 == k.b1 && b0 < k.b0)
    }

    function Price(): Price {
      0x100_0000 * b3 + 0x1_0000 * b2 + 0x100 * b1 + b0
    }
  }

  function KeyOf(p: Price): Key {
    Key(p / 0x100_0000, p / 0x1_0000 % 0x100, p / 0x100 % 0x100, p % 0x100)
  }

  /** The four bytes determine the price. */
  lemma KeyRoundTrip(p: Price)
    ensures KeyOf(p).Price() == p
  {
    assert p / 0x1_0000 == (p / 0x100) / 0x100;
    assert p / 0x100_0000 == (p / 0x1_0000) / 0x100;
  }

  lemma PriceRoundTrip(k: Key)
    ensures KeyOf(k.Price()) == k
  {
    var p := k.Price();
    assert p / 0x100 == 0x1_0000 * k.b3 + 0x100 * k.b2 + k.b1;
    assert p / 0x1_0000 == (p / 0x100) / 0x100 == 0x100 * k.b3 + k.b2;
  }

  lemma PriceOrder(k: Key, e: Key)
    ensures k.Below(e) ==> k.Price() < e.Price()
  {
  }

  lemma BytesAre(p: Price)
    ensures KeyOf(p) == Key(ByteAt(p, 24), ByteAt(p, 16), ByteAt(p, 8), ByteAt(p, 0))
  {
    hide ByteAt;
    Byte24(p);
    Byte16(p);
    Byte8(p);
    assert Pow2(0) == 1;
  }

  lemma Byte24(p: Price)
    ensures ByteAt(p, 24) == p / 0x100_0000
  {
    hide ByteAt;
    Pow2Values();
  }

  lemma Byte16(p: Price)
    ensures ByteAt(p, 16) == p / 0x1_0000 % 0x100
  {
    hide ByteAt;
    Pow2Values();
  }

  lemma Byte8(p: Price)
    ensures ByteAt(p, 8) == p / 0x100 % 0x100
  {
    hide ByteAt;
    Pow2Values();
  }

  ghost predicate SamePrices(prices: set<Price>, keys: set<Key>) {
    forall p: Price :: p in prices <==> KeyOf(p) in keys
  }

  lemma SameAdded(prices: set<Price>, keys: set<Key>, p: Price)
    requires SamePrices(prices, keys)
    ensures SamePrices(prices + {p}, keys + {KeyOf(p)})
  {
    forall q: Price
      ensures q in prices + {p} <==> KeyOf(q) in keys + {KeyOf(p)}
    {
      KeyRoundTrip(p);
      KeyRoundTrip(q);
    }
  }

  lemma SameRemoved(prices: set<Price>, keys: set<Key>, p: Price)
    requires SamePrices(prices, keys)
    ensures SamePrices(prices - {p}, keys - {KeyOf(p)})
  {
    forall q: Price
      ensures q in prices - {p} <==> KeyOf(q) in keys - {KeyOf(p)}
    {
      KeyRoundTrip(p);
      KeyRoundTrip(q);
    }
  }

  class Third {
    var prices: Mask
    ghost const at: nat

    constructor (ghost at: nat)
      ensures prices == EMPTY && this.at == at
    {
      prices := EMPTY;
      this.at := at;
    }
  }

  type Thirds = s: seq<Third?> | |s| == 256 witness seq(256, _ => null)

  class Second {
    var children: Mask
    var child: Thirds
    ghost const at: nat

    constructor (ghost at: nat)
      ensures children == EMPTY && this.at == at
      ensures forall i: Byte :: child[i] == null
    {
      children := EMPTY;
      child := seq(256, _ => null);
      this.at := at;
    }
  }

  type Seconds = s: seq<Second?> | |s| == 256 witness seq(256, _ => null)

  class First {
    var children: Mask
    var child: Seconds
    ghost const at: nat

    constructor (ghost at: nat)
      ensures children == EMPTY && this.at == at
      ensures forall i: Byte :: child[i] == null
    {
      children := EMPTY;
      child := seq(256, _ => null);
      this.at := at;
    }
  }

  type Firsts = s: seq<First?> | |s| == 256 witness seq(256, _ => null)

  /** Every node records the price prefix it stands for in its ghost field `at`, so that two
      different positions never share a node. */
  class PriceIndex {
    var root: Mask
    var first: Firsts
    ghost var Repr: set<object>
    /** The set of prices this index stands for. */
    ghost var prices: set<Price>
    ghost var keys: set<Key>

    /** The nodes on the path of `k`, as far as they exist, are where they belong. */
    ghost predicate Placed(k: Key)
      reads this, Repr
    {
      first[k.b3] != null ==>
        var f := first[k.b3];
        && f in Repr && f.at == k.b3
        && (f.child[k.b2] != null ==>
          var s := f.child[k.b2];
          && s in Repr && s.at == 0x100 * k.b3 + k.b2
          && (s.child[k.b1] != null ==>
            var t := s.child[k.b1];
            t in Repr && t.at == 0x1_0000 * k.b3 + 0x100 * k.b2 + k.b1))
    }

    /** Along the path of `k`, a mask bit is set exactly when its child exists and is not empty. */
    ghost predicate Tier1(k: Key)
      requires Placed(k)
      reads this, Repr
    {
      Has(root, k.b3) <==> first[k.b3] != null && Any(first[k.b3].children)
    }

    ghost predicate Tier2(k: Key)
      requires Placed(k)
      reads this, Repr
    {
      first[k.b3] != null ==>
        var f := first[k.b3];
        Has(f.children, k.b2) <==> f.child[k.b2] != null && Any(f.child[k.b2].children)
    }

    ghost predicate Tier3(k: Key)
      requires Placed(k)
      reads this, Repr
    {
      first[k.b3] != null && first[k.b3].child[k.b2] != null ==>
        var s := first[k.b3].child[k.b2];
        Has(s.children, k.b1) <==> s.child[k.b1] != null && Any(s.child[k.b1].prices)
    }

    /** The path `remove` follows without a check. */
    ghost predicate PathTo(k: Key)
      requires Placed(k)
      reads this, Repr
    {
      && first[k.b3] != null
      && first[k.b3].child[k.b2] != null
      && first[k.b3].child[k.b2].child[k.b1] != null
    }

    ghost predicate Marked(k: Key)
      requires Placed(k)
      reads this, Repr
    {
      PathTo(k) && Has(first[k.b3].child[k.b2].child[k.b1].prices, k.b0)
    }

    /** What holds along the path of every key. */
    ghost predicate PathOk(k: Key)
      reads this, Repr
    {
      Placed(k) && Tier1(k) && Tier2(k) && Tier3(k) && (k in keys <==> Marked(k))
    }

    /** What holds along the path of `k` while `add` or `remove` is on its way up the path of `e`: the mask bit
        of the child in tier `tier` has still to be set or cleared. */
    ghost predicate PathBut(k: Key, e: Key, tier: nat)
      reads this, Repr
    {
      && Placed(k)
      && (Tier1(k) || (tier == 1 && k.b3 == e.b3))
      && (Tier2(k) || (tier == 2 && k.b3 == e.b3 && k.b2 == e.b2))
      && (Tier3(k) || (tier == 3 && k.b3 == e.b3 && k.b2 == e.b2 && k.b1 == e.b1))
      && (k in keys <==> Marked(k))
    }

    ghost predicate Valid()
      reads this, Repr
      ensures Valid() ==> this in Repr
    {
      && this in Repr
      && (forall k: Key :: PathOk(k))
      && SamePrices(prices, keys)
    }

    constructor ()
      ensures Valid() && fresh(Repr) && prices == {}
    {
      root := EMPTY;
      first := seq(256, _ => null);
      prices, keys := {}, {};
      Repr := {this};
      AnyMeans(EMPTY);
    }

    /** `first_[b3]`, created when absent. */
    method EnsureFirst(b3: Byte, alloc: Alloc) returns (out: Outcome<First>, rest: Alloc)
      requires Valid()
      modifies `first, `Repr
      ensures Valid() && fresh(Repr - old(Repr)) && old(Repr) <= Repr
      ensures out.Returned? ==> out.value == first[b3]
      ensures alloc.Never? ==> rest.Never? && out.Returned?
    {
      hide Any, Has;
      rest := alloc;
      if first[b3] == null {
        if rest.Fails() {
          return Threw, rest;
        }
        rest := rest.Next();
        var f := new First(b3);
        AnyMeans(EMPTY);
        Repr := Repr + {f};
        first := first[b3 := f];
        forall k: Key
          ensures PathOk(k)
        {
          assert old(PathOk(k));
        }
      }
      out := Returned(first[b3]);
    }

    /** `first->child[b2]`, created when absent. */
    method EnsureSecond(f: First, b3: Byte, b2: Byte, alloc: Alloc) returns (out: Outcome<Second>, rest: Alloc)
      requires Valid() && f == first[b3] && f in Repr
      modifies f`child, `Repr
      ensures Valid() && fresh(Repr - old(Repr)) && old(Repr) <= Repr
      ensures f == first[b3]
      ensures out.Returned? ==> out.value == f.child[b2]
      ensures alloc.Never? ==> rest.Never? && out.Returned?
    {
      hide Any, Has;
      rest := alloc;
      assert PathOk(Key(b3, b2, 0, 0));
      if f.child[b2] == null {
        if rest.Fails() {
          return Threw, rest;
        }
        rest := rest.Next();
        var s := new Second(0x100 * b3 + b2);
        AnyMeans(EMPTY);
        Repr := Repr + {s};
        f.child := f.child[b2 := s];
        forall k: Key
          ensures PathOk(k)
        {
          assert old(PathOk(k));
        }
      }
      out := Returned(f.child[b2]);
    }

    /** `second->child[b1]`, created when absent. */
    method EnsureThird(f: First, s: Second, b3: Byte, b2: Byte, b1: Byte, alloc: Alloc)
      returns (out: Outcome<Third>, rest: Alloc)
      requires Valid() && f == first[b3] && f in Repr && s == f.child[b2] && s in Repr
      modifies s`child, `Repr
      ensures Valid() && fresh(Repr - old(Repr)) && old(Repr) <= Repr
      ensures f == first[b3] && s == f.child[b2]
      ensures out.Returned? ==> out.value == s.child[b1]
      ensures alloc.Never? ==> rest.Never? && out.Returned?
    {
      hide Any, Has;
      rest := alloc;
      assert PathOk(Key(b3, b2, b1, 0));
      if s.child[b1] == null {
        if rest.Fails() {
          return Threw, rest;
        }
        rest := rest.Next();
        var t := new Third(0x1_0000 * b3 + 0x100 * b2 + b1);
        AnyMeans(EMPTY);
        Repr := Repr + {t};
        s.child := s.child[b1 := t];
        forall k: Key
          ensures PathOk(k)
        {
          assert old(PathOk(k));
        }
      }
      out := Returned(s.child[b1]);
    }

    /** Insert a price. When an allocation fails the set of prices is unchanged, although nodes that
        stand for no price may have been created. */
    method Add(price: Price, alloc: Alloc) returns (out: Outcome<()>, rest: Alloc)
      requires Valid()
      modifies Repr
      ensures Valid() && fresh(Repr - old(Repr)) && old(Repr) <= Repr
      ensures out.Returned? ==> prices == old(prices) + {price}
      ensures out.Threw? ==> prices == old(prices)
      ensures alloc.Never? ==> rest.Never? && out.Returned?
    {
      hide Any, Has, ByteAt, KeyOf, PathOk, PathTo, SamePrices;
      BytesAre(price);
      var b3, b2 := ByteAt(price, 24), ByteAt(price, 16);
      var b1, b0 := ByteAt(price, 8), ByteAt(price, 0);
      var key := Key(b3, b2, b1, b0);

      // Every needed node exists before any mask is set.
      var made, a := MakePath(key, alloc);
      if made.Threw? {
        return Threw, a;
      }
      var (f, s, t) := made.value;
      SetPath(f, s, t, key, price);
      return Returned(()), a;
    }

    /** The nodes of a path, created when absent. */
    method MakePath(key: Key, alloc: Alloc) returns (out: Outcome<(First, Second, Third)>, rest: Alloc)
      requires Valid()
      modifies Repr
      ensures Valid() && fresh(Repr - old(Repr)) && old(Repr) <= Repr && prices == old(prices)
      ensures out.Returned? ==>
        && {out.value.0, out.value.1, out.value.2} <= Repr && out.value.0 == first[key.b3]
        && out.value.1 == out.value.0.child[key.b2] && out.value.2 == out.value.1.child[key.b1]
      ensures alloc.Never? ==> rest.Never? && out.Returned?
    {
      hide Any, Has, Tier1, Tier2, Tier3, Marked, SamePrices;
      var mf, a := EnsureFirst(key.b3, alloc);
      if mf.Threw? {
        return Threw, a;
      }
      assert PathOk(key);
      var ms, a' := EnsureSecond(mf.value, key.b3, key.b2, a);
      if ms.Threw? {
        return Threw, a';
      }
      assert PathOk(key);
      var mt, a'' := EnsureThird(mf.value, ms.value, key.b3, key.b2, key.b1, a');
      if mt.Threw? {
        return Threw, a'';
      }
      assert PathOk(key);
      return Returned((mf.value, ms.value, mt.value)), a'';
    }

    /** Set the four mask bits of a path whose nodes exist. */
    method SetPath(f: First, s: Second, t: Third, key: Key, ghost price: Price)
      requires Valid() && f == first[key.b3] && {f, s, t} <= Repr && key == KeyOf(price)
      requires s == f.child[key.b2] && t == s.child[key.b1]
      modifies t`prices, s`children, f`children, `root, `keys, `prices
      ensures Valid() && prices == old(prices) + {price}
    {
      hide Any, Has, KeyOf, SamePrices;
      assert PathOk(key);
      MarkLeaf(t, key, price);
      MarkThird(f, s, t, key);
      MarkSecond(f, s, key);
      MarkFirst(f, key);
    }

    method MarkLeaf(t: Third, key: Key, ghost price: Price)
      requires Valid() && PathOk(key) && PathTo(key) && key == KeyOf(price)
      requires t == first[key.b3].child[key.b2].child[key.b1]
      modifies t`prices, `keys, `prices
      ensures SamePrices(prices, keys) && prices == old(prices) + {price} && Any(t.prices)
      ensures forall k: Key :: PathBut(k, key, 3)
    {
      hide Any, Has, KeyOf, Set, SamePrices;
      SameAdded(prices, keys, price);
      t.prices := Set(t.prices, key.b0);
      keys, prices := keys + {key}, prices + {price};
      AnyMeans(t.prices);
      forall k: Key
        ensures PathBut(k, key, 3)
      {
        assert old(PathOk(k));
        assert Placed(k);
        if PathTo(k) && first[k.b3].child[k.b2].child[k.b1] == t {
          assert k.b3 == key.b3 && k.b2 == key.b2 && k.b1 == key.b1;
        }
      }
    }

    method MarkThird(f: First, s: Second, t: Third, key: Key)
      requires this in Repr && forall k: Key :: PathBut(k, key, 3)
      requires f == first[key.b3] && {f, s, t} <= Repr && s == f.child[key.b2] && t == s.child[key.b1] && Any(t.prices)
      modifies s`children
      ensures Any(s.children) && forall k: Key :: PathBut(k, key, 2)
    {
      hide Any, Has, Set;
      assert PathBut(key, key, 3);
      s.children := Set(s.children, key.b1);
      AnyMeans(s.children);
      forall k: Key
        ensures PathBut(k, key, 2)
      {
        assert old(PathBut(k, key, 3));
      }
    }

    method MarkSecond(f: First, s: Second, key: Key)
      requires this in Repr && forall k: Key :: PathBut(k, key, 2)
      requires f == first[key.b3] && {f, s} <= Repr && s == f.child[key.b2] && Any(s.children)
      modifies f`children
      ensures Any(f.children) && forall k: Key :: PathBut(k, key, 1)
    {
      hide Any, Has, Set;
      assert PathBut(key, key, 2);
      f.children := Set(f.children, key.b2);
      AnyMeans(f.children);
      forall k: Key
        ensures PathBut(k, key, 1)
      {
        assert old(PathBut(k, key, 2));
      }
    }

    method MarkFirst(f: First, key: Key)
      requires this in Repr && SamePrices(prices, keys) && forall k: Key :: PathBut(k, key, 1)
      requires f == first[key.b3] && f in Repr && Any(f.children)
      modifies `root
      ensures Valid()
    {
      hide Any, Has, Set, SamePrices;
      root := Set(root, key.b3);
      forall k: Key
        ensures PathOk(k)
      {
        assert old(PathBut(k, key, 1));
      }
    }

    /** Delete a price, and every node on its path that is left empty. */
    method Remove(price: Price)
      requires Valid() && PathOk(KeyOf(price)) && PathTo(KeyOf(price))
      modifies Repr
      ensures Valid() && Repr == old(Repr)
      ensures prices == old(prices) - {price}
      ensures Trimmed(KeyOf(price))
    {
      hide Any, Has, ByteAt, KeyOf, Clear, Trimmed, SamePrices;
      BytesAre(price);
      ghost var key := KeyOf(price);
      var b3, b2 := ByteAt(price, 24), ByteAt(price, 16);
      var b1, b0 := ByteAt(price, 8), ByteAt(price, 0);
      var f := first[b3];
      var s := f.child[b2];
      var t := s.child[b1];
      ClearLeaf(t, b0, key, price);
      if Any(t.prices) {
        TrimmedPath(key);
        return;
      }
      PruneThird(f, s, b3, b2, b1, key);
      if Any(s.children) {
        TrimmedPath(key);
        return;
      }
      PruneSecond(f, b3, b2, key);
      if Any(f.children) {
        TrimmedPath(key);
        return;
      }
      PruneFirst(b3, key);
      TrimmedPath(key);
    }

    /** No node on the path of `k` is empty. */
    ghost predicate Trimmed(k: Key)
      reads this, Repr
    {
      && Placed(k)
      && (first[k.b3] != null ==> Any(first[k.b3].children))
      && (first[k.b3] != null && first[k.b3].child[k.b2] != null ==> Any(first[k.b3].child[k.b2].children))
      && (PathTo(k) ==> Any(first[k.b3].child[k.b2].child[k.b1].prices))
    }

    /** When the last node of a path is not empty, none on the path is. */
    lemma TrimmedPath(k: Key)
      requires Valid()
      requires Placed(k) && (PathTo(k) ==> Any(first[k.b3].child[k.b2].child[k.b1].prices))
      requires first[k.b3] != null && first[k.b3].child[k.b2] != null && !PathTo(k) ==>
        Any(first[k.b3].child[k.b2].children)
      requires first[k.b3] != null && first[k.b3].child[k.b2] == null ==> Any(first[k.b3].children)
      ensures Trimmed(k)
    {
      hide Any, Has;
      assert PathOk(k);
      if first[k.b3] != null {
        AnyMeans(first[k.b3].children);
        if first[k.b3].child[k.b2] != null {
          AnyMeans(first[k.b3].child[k.b2].children);
        }
      }
    }

    /** Clear the lowest byte of a price in its third-tier node. */
    method ClearLeaf(t: Third, b0: Byte, ghost e: Key, ghost price: Price)
      requires Valid() && PathOk(e) && PathTo(e) && e == KeyOf(price) && b0 == e.b0
      requires t == first[e.b3].child[e.b2].child[e.b1]
      modifies t`prices, `keys, `prices
      ensures SamePrices(prices, keys) && prices == old(prices) - {price}
      ensures forall k: Key :: PathBut(k, e, 3)
      ensures Any(t.prices) ==> Valid()
    {
      hide Any, Has, KeyOf, Clear, SamePrices;
      SameRemoved(prices, keys, price);
      AnyMeans(t.prices);
      keys, prices := keys - {e}, prices - {price};
      t.prices := Clear(t.prices, b0);
      AnyMeans(t.prices);
      forall k: Key
        ensures PathBut(k, e, 3) && (Any(t.prices) ==> PathOk(k))
      {
        assert old(PathOk(k));
        assert Placed(k);
        if PathTo(k) && first[k.b3].child[k.b2].child[k.b1] == t {
          assert k.b3 == e.b3 && k.b2 == e.b2 && k.b1 == e.b1;
        }
      }
    }

    /** Destroy an empty third-tier node and clear its bit. */
    method PruneThird(f: First, s: Second, b3: Byte, b2: Byte, b1: Byte, ghost e: Key)
      requires this in Repr && SamePrices(prices, keys)
      requires forall k: Key :: PathBut(k, e, 3)
      requires b3 == e.b3 && b2 == e.b2 && b1 == e.b1
      requires f == first[b3] && f in Repr && s == f.child[b2] && s in Repr
      requires s.child[b1] != null && s.child[b1] in Repr && !Any(s.child[b1].prices)
      modifies s`child, s`children
      ensures forall k: Key :: PathBut(k, e, 2)
      ensures Any(s.children) ==> Valid()
      ensures s.child[b1] == null
    {
      hide Any, Has, Clear;
      assert PathBut(e, e, 3);
      AnyMeans(s.child[b1].prices);
      AnyMeans(s.children);
      s.child := s.child[b1 := null];
      s.children := Clear(s.children, b1);
      AnyMeans(s.children);
      forall k: Key
        ensures PathBut(k, e, 2) && (Any(s.children) ==> PathOk(k))
      {
        assert old(PathBut(k, e, 3));
      }
    }

    /** Destroy an empty second-tier node and clear its bit. */
    method PruneSecond(f: First, b3: Byte, b2: Byte, ghost e: Key)
      requires this in Repr && SamePrices(prices, keys)
      requires forall k: Key :: PathBut(k, e, 2)
      requires b3 == e.b3 && b2 == e.b2
      requires f == first[b3] && f in Repr
      requires f.child[b2] != null && f.child[b2] in Repr && !Any(f.child[b2].children)
      modifies f`child, f`children
      ensures forall k: Key :: PathBut(k, e, 1)
      ensures Any(f.children) ==> Valid()
      ensures f.child[b2] == null
    {
      hide Any, Has, Clear;
      assert PathBut(e, e, 2);
      AnyMeans(f.child[b2].children);
      AnyMeans(f.children);
      ghost var s := f.child[b2];
      f.child := f.child[b2 := null];
      f.children := Clear(f.children, b2);
      AnyMeans(f.children);
      forall k: Key
        ensures PathBut(k, e, 1) && (Any(f.children) ==> PathOk(k))
      {
        assert old(PathBut(k, e, 2));
        if k.b3 == b3 && k.b2 == b2 && s.child[k.b1] != null {
          AnyMeans(s.child[k.b1].prices);
        }
      }
    }

    /** Destroy an empty first-tier node and clear its bit in the root. */
    method PruneFirst(b3: Byte, ghost e: Key)
      requires this in Repr && SamePrices(prices, keys)
      requires forall k: Key :: PathBut(k, e, 1)
      requires b3 == e.b3
      requires first[b3] != null && first[b3] in Repr && !Any(first[b3].children)
      modifies `first, `root
      ensures Valid() && first[b3] == null
    {
      hide Any, Has, Clear;
      AnyMeans(first[b3].children);
      ghost var f := first[b3];
      first := first[b3 := null];
      root := Clear(root, b3);
      forall k: Key
        ensures PathOk(k)
      {
        assert old(PathBut(k, e, 1));
        if k.b3 == b3 && f.child[k.b2] != null {
          AnyMeans(f.child[k.b2].children);
          if f.child[k.b2].child[k.b1] != null {
            AnyMeans(f.child[k.b2].child[k.b1].prices);
          }
        }
      }
    }

    /** Every price's path is marked from the root down. */
    lemma KeyPath(k: Key)
      requires Valid() && k in keys
      ensures PathOk(k) && PathTo(k)
      ensures Has(root, k.b3) && Has(first[k.b3].children, k.b2)
      ensures Has(first[k.b3].child[k.b2].children, k.b1)
      ensures Has(first[k.b3].child[k.b2].child[k.b1].prices, k.b0)
    {
      hide Any, Has;
      assert PathOk(k);
      AnyMeans(first[k.b3].child[k.b2].child[k.b1].prices);
      AnyMeans(first[k.b3].child[k.b2].children);
      AnyMeans(first[k.b3].children);
    }

    /** Forget every price. */
    method Reset()
      requires Valid()
      modifies this
      ensures Valid() && Repr == old(Repr) && prices == {}
    {
      hide Has;
      for i := 0 to 256
        invariant Repr == old(Repr)
        invariant forall k :: 0 <= k < i ==> first[k] == null
      {
        first := first[i := null];
      }
      root := EMPTY;
      keys, prices := {}, {};
      AnyMeans(EMPTY);
    }

    /** The path of a price in the index exists, so it may be removed. */
    lemma OnPath(price: Price)
      requires Valid() && price in prices
      ensures PathOk(KeyOf(price)) && PathTo(KeyOf(price))
    {
      hide Any, Has, KeyOf;
      KeyPath(KeyOf(price));
    }

    /** The lowest price, or the highest when `reverse`; none exactly when the index is empty. */
    method Find(reverse: bool) returns (best: Option<Price>)
      requires Valid()
      ensures best.None? <==> prices == {}
      ensures best.Some? ==> best.value in prices
      ensures best.Some? && !reverse ==> forall p :: p in prices ==> best.value <= p
      ensures best.Some? && reverse ==> forall p :: p in prices ==> p <= best.value
    {
      hide Any, Has, KeyOf, Extreme, PathOk, PathTo;
      if !Any(root) {
        NothingMarked();
        return None;
      }
      var b3, b2, b1, b0 := Descend(reverse);
      best := Some(Compose(b3, b2, b1, b0));
      BestKey(Key(b3, b2, b1, b0), reverse);
    }

    lemma NothingMarked()
      requires Valid() && !Any(root)
      ensures prices == {}
    {
      hide Any, Has, KeyOf;
      AnyMeans(root);
      forall p | p in prices ensures false { KeyPath(KeyOf(p)); }
    }

    /** Follow the extreme byte at every tier. */
    method Descend(reverse: bool) returns (b3: Byte, b2: Byte, b1: Byte, b0: Byte)
      requires Valid() && Any(root)
      ensures var key := Key(b3, b2, b1, b0);
        && PathOk(key) && PathTo(key)
        && Extreme(root, b3, reverse) && Extreme(first[b3].children, b2, reverse)
        && Extreme(first[b3].child[b2].children, b1, reverse)
        && Extreme(first[b3].child[b2].child[b1].prices, b0, reverse)
    {
      hide Any, Has, KeyOf, Extreme;
      b3 := Pick(root, reverse);
      HasMeans(root, b3, reverse);
      assert PathOk(Key(b3, 0, 0, 0));
      var f := first[b3];
      b2 := Pick(f.children, reverse);
      HasMeans(f.children, b2, reverse);
      assert PathOk(Key(b3, b2, 0, 0));
      var s := f.child[b2];
      b1 := Pick(s.children, reverse);
      HasMeans(s.children, b1, reverse);
      assert PathOk(Key(b3, b2, b1, 0));
      b0 := Pick(s.child[b1].prices, reverse);
      assert PathOk(Key(b3, b2, b1, b0));
    }

    /** The key found by taking the extreme byte at every tier is the extreme key. */
    lemma BestKey(key: Key, reverse: bool)
      requires Valid() && PathOk(key) && PathTo(key)
      requires Extreme(root, key.b3, reverse) && Extreme(first[key.b3].children, key.b2, reverse)
      requires Extreme(first[key.b3].child[key.b2].children, key.b1, reverse)
      requires Extreme(first[key.b3].child[key.b2].child[key.b1].prices, key.b0, reverse)
      ensures key.Price() in prices
      ensures forall p :: p in prices ==> if reverse then p <= key.Price() else key.Price() <= p
    {
      hide Any, Has, KeyOf;
      PriceRoundTrip(key);
      forall p | p in prices
        ensures if reverse then p <= key.Price() else key.Price() <= p
      {
        var k := KeyOf(p);
        KeyPath(k);
        KeyRoundTrip(p);
        PriceOrder(k, key);
        PriceOrder(key, k);
      }
    }
  }

  /** `b` is marked, and no marked byte is beyond it. */
  ghost predicate Extreme(m: Mask, b: Byte, reverse: bool) {
    Has(m, b) && forall u: Byte :: Has(m, u) ==> if reverse then u <= b else b <= u
  }

  lemma HasMeans(m: Mask, b: Byte, reverse: bool)
    requires Extreme(m, b, reverse)
    ensures Has(m, b)
  {
  }

  /** `reverse ? highest(mask) : lowest(mask)`. */
  method Pick(m: Mask, reverse: bool) returns (b: Byte)
    requires Any(m)
    ensures Extreme(m, b, reverse)
  {
    if reverse {
      b := Highest(m);
    } else {
      b := Lowest(m);
    }
  }
}
