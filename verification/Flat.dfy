/** The flat view of a list of byte blocks.
    Scatter-gather code walks a list of blocks with an index and an offset; what it means
    is a position in the concatenation of the blocks. */
module Flat {

  import opened Basics

  /** `s` with the bytes from `at` on overwritten by `w`. */
  function Splice(s: seq<Byte>, at: nat, w: seq<Byte>): (r: seq<Byte>)
    requires at + |w| <= |s|
    ensures |r| == |s|
  {
    s[..at] + w + s[at + |w|..]
  }

  lemma SpliceIndex(s: seq<Byte>, at: nat, w: seq<Byte>)
    requires at + |w| <= |s|
    ensures forall i {:trigger Splice(s, at, w)[i]} :: 0 <= i < |s| ==>
      Splice(s, at, w)[i] == if at <= i < at + |w| then w[i - at] else s[i]
  {
  }

  lemma SpliceKeeps(s: seq<Byte>, at: nat, w: seq<Byte>, from: nat, to: nat)
    requires at + |w| <= |s| && from <= to <= |s| && (to <= at || at + |w| <= from)
    ensures Splice(s, at, w)[from..to] == s[from..to]
  {
    SpliceIndex(s, at, w);
    hide Splice;
    var t := Splice(s, at, w);
    assert |t[from..to]| == |s[from..to]|;
    forall k | 0 <= k < |t[from..to]| ensures t[from..to][k] == s[from..to][k] {
      assert t[from..to][k] == t[from + k];
    }
  }

  lemma SpliceWrites(s: seq<Byte>, at: nat, w: seq<Byte>)
    requires at + |w| <= |s|
    ensures Splice(s, at, w)[at..at + |w|] == w
  {
  }

  /** The number of bytes in the first `i` blocks. */
  function Before(sizes: seq<nat>, i: nat): nat
    requires i <= |sizes|
  {
    if i == 0 then 0 else Before(sizes, i - 1) + sizes[i - 1]
  }

  function Sizes(blocks: seq<seq<Byte>>): (r: seq<nat>)
    ensures |r| == |blocks|
    ensures forall i :: 0 <= i < |r| ==> r[i] == |blocks[i]|
  {
    seq(|blocks|, i requires 0 <= i < |blocks| => |blocks[i]|)
  }

  /** The first `i` blocks, concatenated. */
  function Prefix(blocks: seq<seq<Byte>>, i: nat): seq<Byte>
    requires i <= |blocks|
  {
    if i == 0 then [] else Prefix(blocks, i - 1) + blocks[i - 1]
  }

  function Flatten(blocks: seq<seq<Byte>>): seq<Byte> {
    Prefix(blocks, |blocks|)
  }

  lemma {:induction false} PrefixLength(blocks: seq<seq<Byte>>, i: nat)
    requires i <= |blocks|
    ensures |Prefix(blocks, i)| == Before(Sizes(blocks), i)
  {
    if i > 0 {
      PrefixLength(blocks, i - 1);
    }
  }

  lemma {:induction false} BeforeMonotone(sizes: seq<nat>, i: nat, j: nat)
    requires i <= j <= |sizes|
    ensures Before(sizes, i) <= Before(sizes, j)
  {
    if i < j {
      BeforeMonotone(sizes, i, j - 1);
    }
  }

  /** The blocks up to `i` are a prefix of the blocks up to `j`. */
  lemma {:induction false} PrefixOfPrefix(blocks: seq<seq<Byte>>, i: nat, j: nat)
    requires i <= j <= |blocks|
    ensures |Prefix(blocks, i)| <= |Prefix(blocks, j)|
    ensures Prefix(blocks, j)[..|Prefix(blocks, i)|] == Prefix(blocks, i)
  {
    if i < j {
      PrefixOfPrefix(blocks, i, j - 1);
    }
  }

  /** A range of a range is a range. */
  lemma RangeOfRange(s: seq<Byte>, a: nat, b: nat, from: nat, to: nat)
    requires a <= b <= |s| && from <= to <= b - a
    ensures s[a..b][from..to] == s[a + from..a + to]
  {
    forall i | 0 <= i < to - from ensures s[a..b][from..to][i] == s[a + from..a + to][i] {
      assert s[a..b][from..to][i] == s[a..b][from + i] == s[a + (from + i)];
    }
  }

  lemma RangesJoin(s: seq<Byte>, a: nat, b: nat, c: nat)
    requires a <= b <= c <= |s|
    ensures s[a..b] + s[b..c] == s[a..c]
  {
  }

  /** A range inside block `i` is the range of the flat view that starts `Before(i)` bytes later. */
  lemma RangeInBlock(blocks: seq<seq<Byte>>, i: nat, from: nat, to: nat)
    requires i < |blocks| && from <= to <= |blocks[i]|
    ensures Before(Sizes(blocks), i) + to <= |Flatten(blocks)|
    ensures Flatten(blocks)[Before(Sizes(blocks), i) + from..Before(Sizes(blocks), i) + to] == blocks[i][from..to]
  {
    PrefixLength(blocks, i);
    PrefixOfPrefix(blocks, i + 1, |blocks|);
    var p := Before(Sizes(blocks), i);
    var flat := Flatten(blocks);
    assert flat[..p + |blocks[i]|] == Prefix(blocks, i) + blocks[i];
    forall k | from <= k < to ensures flat[p + k] == blocks[i][k] {
      assert flat[p + k] == flat[..p + |blocks[i]|][p + k] == (Prefix(blocks, i) + blocks[i])[p + k];
    }
    forall k | 0 <= k < to - from ensures flat[p + from..p + to][k] == blocks[i][from..to][k] {
      assert flat[p + from..p + to][k] == flat[p + (from + k)];
    }
  }

  lemma SpliceLeft(a: seq<Byte>, b: seq<Byte>, at: nat, w: seq<Byte>)
    requires at + |w| <= |a|
    ensures Splice(a + b, at, w) == Splice(a, at, w) + b
  {
  }

  lemma SpliceRight(a: seq<Byte>, b: seq<Byte>, at: nat, w: seq<Byte>)
    requires at + |w| <= |b|
    ensures Splice(a + b, |a| + at, w) == a + Splice(b, at, w)
  {
  }

  /** Overwriting inside block `i` overwrites the flat view `Before(i)` bytes later, and nothing else. */
  lemma {:induction false} SpliceInBlock(blocks: seq<seq<Byte>>, i: nat, at: nat, w: seq<Byte>, n: nat)
    requires i < n <= |blocks| && at + |w| <= |blocks[i]|
    ensures Before(Sizes(blocks), i) + at + |w| <= |Prefix(blocks, n)|
    ensures Prefix(blocks[i := Splice(blocks[i], at, w)], n)
         == Splice(Prefix(blocks, n), Before(Sizes(blocks), i) + at, w)
  {
    hide Splice, Before;
    var changed := blocks[i := Splice(blocks[i], at, w)];
    PrefixLength(blocks, i);
    if i + 1 < n {
      SpliceInBlock(blocks, i, at, w, n - 1);
      SpliceLeft(Prefix(blocks, n - 1), blocks[n - 1], Before(Sizes(blocks), i) + at, w);
    } else {
      SamePrefix(blocks, changed, i);
      SpliceRight(Prefix(blocks, i), blocks[i], at, w);
    }
  }

  lemma {:induction false} SamePrefix(a: seq<seq<Byte>>, b: seq<seq<Byte>>, i: nat)
    requires i <= |a| && i <= |b| && a[..i] == b[..i]
    ensures Prefix(a, i) == Prefix(b, i)
  {
    if i > 0 {
      assert a[..i - 1] == a[..i][..i - 1] == b[..i][..i - 1] == b[..i - 1];
      assert a[i - 1] == a[..i][i - 1] == b[..i][i - 1] == b[i - 1];
      SamePrefix(a, b, i - 1);
    }
  }
}
