/** The memory image (`create_mem_file`): the `(address, word)` pairs of the
    program, sorted by address with a stable sort, written out one word per
    line, with a zero word for every two-byte step of a gap before each
    entry. Word `i` of the image stands for byte address `2 * i`. */
module MemImage {
  /** An `(address, word)` pair. */
  type Loc = (nat, nat)

  /** Non-decreasing addresses. */
  predicate Sorted(s: seq<Loc>) {
    forall i, j | 0 <= i < j < |s| :: s[i].0 <= s[j].0
  }

  /** Insert `x` before the first entry whose address is at least its own. */
  function Insert(x: Loc, s: seq<Loc>): (r: seq<Loc>)
    ensures |r| == |s| + 1
  {
    if s == [] || x.0 <= s[0].0 then [x] + s
    else [s[0]] + Insert(x, s[1..])
  }

  /** `sorted(locs, key=lambda x: x[0])`, as a stable insertion sort. */
  function SortByAddress(l: seq<Loc>): (r: seq<Loc>)
    ensures |r| == |l|
  {
    if l == [] then [] else Insert(l[0], SortByAddress(l[1..]))
  }

  /** The entries at address `a`, in order. */
  function WithAddress(l: seq<Loc>, a: nat): seq<Loc> {
    if l == [] then []
    else if l[0].0 == a then [l[0]] + WithAddress(l[1..], a)
    else WithAddress(l[1..], a)
  }

  lemma {:induction false} InsertPermutes(x: Loc, s: seq<Loc>)
    ensures multiset(Insert(x, s)) == multiset(s) + multiset{x}
  {
    if s != [] && x.0 > s[0].0 {
      InsertPermutes(x, s[1..]);
      assert s == [s[0]] + s[1..];
    }
  }

  lemma {:induction false} InsertSorted(x: Loc, s: seq<Loc>)
    requires Sorted(s)
    ensures Sorted(Insert(x, s))
    ensures Insert(x, s)[0] == if s == [] || x.0 <= s[0].0 then x else s[0]
  {
    if s != [] && x.0 > s[0].0 {
      var r := Insert(x, s[1..]);
      InsertSorted(x, s[1..]);
      assert s[0].0 <= r[0].0 by {
        if s[1..] != [] && x.0 > s[1..][0].0 {
          assert s[1..][0] == s[1];
        }
      }
      var t := [s[0]] + r;
      forall i, j | 0 <= i < j < |t| ensures t[i].0 <= t[j].0 {
        assert t[j] == r[j - 1];
        if i > 0 {
          assert t[i] == r[i - 1];
        } else if j > 1 {
          assert r[0].0 <= r[j - 1].0;
        }
      }
    }
  }

  lemma {:induction false} InsertWithAddress(x: Loc, s: seq<Loc>, a: nat)
    ensures WithAddress(Insert(x, s), a) == (if x.0 == a then [x] else []) + WithAddress(s, a)
  {
    if s == [] || x.0 <= s[0].0 {
      assert ([x] + s)[1..] == s;
    } else {
      InsertWithAddress(x, s[1..], a);
      assert ([s[0]] + Insert(x, s[1..]))[1..] == Insert(x, s[1..]);
    }
  }

  lemma {:induction false} SortSorted(l: seq<Loc>)
    ensures Sorted(SortByAddress(l))
  {
    if l != [] {
      SortSorted(l[1..]);
      InsertSorted(l[0], SortByAddress(l[1..]));
    }
  }

  lemma {:induction false} SortPermutes(l: seq<Loc>)
    ensures multiset(SortByAddress(l)) == multiset(l)
  {
    if l != [] {
      SortPermutes(l[1..]);
      InsertPermutes(l[0], SortByAddress(l[1..]));
      assert l == [l[0]] + l[1..];
    }
  }

  lemma {:induction false} SortStable(l: seq<Loc>, a: nat)
    ensures WithAddress(SortByAddress(l), a) == WithAddress(l, a)
  {
    if l != [] {
      SortStable(l[1..], a);
      InsertWithAddress(l[0], SortByAddress(l[1..]), a);
    }
  }

  /** The sort's output is sorted, a permutation of its input, and stable:
      the entries at any one address keep their input order. */
  lemma SortSpec(l: seq<Loc>)
    ensures Sorted(SortByAddress(l))
    ensures multiset(SortByAddress(l)) == multiset(l)
    ensures forall a: nat :: WithAddress(SortByAddress(l), a) == WithAddress(l, a)
  {
    SortSorted(l);
    SortPermutes(l);
    forall a: nat ensures WithAddress(SortByAddress(l), a) == WithAddress(l, a) {
      SortStable(l, a);
    }
  }

  /** The words written for sorted entries `s` from byte address `curr` on:
      a zero word while `curr` is below the next entry's address, then that
      entry's word; each word advances `curr` by two. */
  function Fill(s: seq<Loc>, curr: int): seq<nat>
    decreases |s|, if s != [] && curr < s[0].0 then s[0].0 - curr else 0
  {
    if s == [] then []
    else if curr < s[0].0 then [0] + Fill(s, curr + 2)
    else [s[0].1] + Fill(s[1..], curr + 2)
  }

  lemma FillGap(s: seq<Loc>, curr: int)
    requires s != [] && curr < s[0].0
    ensures Fill(s, curr) == [0] + Fill(s, curr + 2)
  {
  }

  lemma FillEntry(s: seq<Loc>, curr: int)
    requires s != [] && curr >= s[0].0
    ensures Fill(s, curr) == [s[0].1] + Fill(s[1..], curr + 2)
  {
  }

  /** The contents of the memory file, one word per line. */
  function Image(locs: seq<Loc>): seq<nat> {
    Fill(SortByAddress(locs), 0)
  }

  /** `create_mem_file`, with the lines it prints returned as words. */
  method CreateMemFile(locs: seq<Loc>) returns (image: seq<nat>)
    ensures image == Image(locs)
  {
    var sorted := SortByAddress(locs);
    var curr: int := 0;
    image := [];
    var k := 0;
    while k < |sorted|
      invariant 0 <= k <= |sorted|
      invariant image + Fill(sorted[k..], curr) == Fill(sorted, 0)
    {
      var (addr, val) := sorted[k];
      ghost var rest := sorted[k..];
      assert rest[0] == (addr, val);
      while curr < addr
        invariant image + Fill(rest, curr) == Fill(sorted, 0)
      {
        FillGap(rest, curr);
        image := image + [0];
        curr := curr + 2;
      }
      FillEntry(rest, curr);
      assert rest[1..] == sorted[k + 1..];
      image := image + [val];
      curr := curr + 2;
      k := k + 1;
    }
  }

  /** The first word stored at byte address `a`, or 0 when there is none. */
  function ValueAt(l: seq<Loc>, a: nat): nat {
    if WithAddress(l, a) == [] then 0 else WithAddress(l, a)[0].1
  }

  /** No two entries share an address. */
  ghost predicate DistinctAddresses(l: seq<Loc>) {
    forall a: nat :: |WithAddress(l, a)| <= 1
  }

  /** Every address is even (word aligned). */
  predicate EvenAddresses(l: seq<Loc>) {
    forall i | 0 <= i < |l| :: l[i].0 % 2 == 0
  }

  /** Strictly increasing addresses. */
  predicate Increasing(s: seq<Loc>) {
    forall i, j | 0 <= i < j < |s| :: s[i].0 < s[j].0
  }

  lemma {:induction false} WithAddressAppend(p: seq<Loc>, q: seq<Loc>, a: nat)
    ensures WithAddress(p + q, a) == WithAddress(p, a) + WithAddress(q, a)
  {
    if p == [] {
      assert p + q == q;
    } else {
      WithAddressAppend(p[1..], q, a);
      assert (p + q)[0] == p[0];
      assert (p + q)[1..] == p[1..] + q;
    }
  }

  /** Sorted entries at distinct addresses are strictly increasing. */
  lemma SortedDistinctIncreasing(s: seq<Loc>)
    requires Sorted(s) && DistinctAddresses(s)
    ensures Increasing(s)
  {
    forall i, j | 0 <= i < j < |s| ensures s[i].0 < s[j].0 {
      if s[i].0 == s[j].0 {
        var a := s[i].0;
        assert s == s[..i] + ([s[i]] + (s[i + 1..j] + ([s[j]] + s[j + 1..])));
        WithAddressAppend(s[..i], [s[i]] + (s[i + 1..j] + ([s[j]] + s[j + 1..])), a);
        WithAddressAppend([s[i]], s[i + 1..j] + ([s[j]] + s[j + 1..]), a);
        WithAddressAppend(s[i + 1..j], [s[j]] + s[j + 1..], a);
        WithAddressAppend([s[j]], s[j + 1..], a);
        assert false;
      }
    }
  }

  /** Below the first address of increasing entries nothing is stored. */
  lemma {:induction false} NothingBelow(s: seq<Loc>, a: nat)
    requires Increasing(s) && (s == [] || a < s[0].0)
    ensures WithAddress(s, a) == []
  {
    if s != [] {
      NothingBelow(s[1..], a);
    }
  }

  /** Above the first address, the entries after the first hold the same. */
  lemma ValueAtTail(s: seq<Loc>, b: nat)
    requires s != [] && s[0].0 != b
    ensures ValueAt(s, b) == ValueAt(s[1..], b)
  {
  }

  /** The image of increasing, even entries, written from an even address at
      or below the first, ends with the last entry. */
  lemma {:induction false} FillLength(s: seq<Loc>, curr: int)
    requires Increasing(s) && EvenAddresses(s) && curr % 2 == 0
    requires s != [] ==> curr <= s[0].0
    ensures |Fill(s, curr)| == (if s == [] then 0 else (s[|s| - 1].0 - curr) / 2 + 1)
    decreases |s|, if s != [] && curr < s[0].0 then s[0].0 - curr else 0
  {
    if s != [] {
      if curr < s[0].0 {
        assert s[0].0 % 2 == 0;
        FillLength(s, curr + 2);
      } else if |s| > 1 {
        assert Increasing(s[1..]) && EvenAddresses(s[1..]);
        assert s[1..][0] == s[1] && s[0].0 < s[1].0 && s[1].0 % 2 == 0;
        FillLength(s[1..], curr + 2);
        assert s[1..][|s[1..]| - 1] == s[|s| - 1];
      }
    }
  }

  /** The image of increasing, even entries, written from an even address
      at or below the first: word `i` holds what is stored at byte address
      `curr + 2 * i`. */
  lemma {:induction false} FillContents(s: seq<Loc>, curr: int)
    requires Increasing(s) && EvenAddresses(s) && curr % 2 == 0
    requires s != [] ==> curr <= s[0].0
    ensures forall i | 0 <= i < |Fill(s, curr)| && curr + 2 * i >= 0 :: Fill(s, curr)[i] == ValueAt(s, curr + 2 * i)
    decreases |s|, if s != [] && curr < s[0].0 then s[0].0 - curr else 0
  {
    if s != [] {
      var f := Fill(s, curr);
      if curr < s[0].0 {
        assert s[0].0 % 2 == 0;
        FillContents(s, curr + 2);
        FillGap(s, curr);
        forall i | 0 <= i < |f| && curr + 2 * i >= 0 ensures f[i] == ValueAt(s, curr + 2 * i) {
          if i == 0 {
            NothingBelow(s, curr);
          } else {
            assert f[i] == Fill(s, curr + 2)[i - 1];
            assert curr + 2 * i == curr + 2 + 2 * (i - 1);
          }
        }
      } else {
        assert Increasing(s[1..]) && EvenAddresses(s[1..]);
        assert s[1..] != [] ==> s[1..][0] == s[1] && s[0].0 < s[1].0 && s[1].0 % 2 == 0;
        FillContents(s[1..], curr + 2);
        FillEntry(s, curr);
        forall i | 0 <= i < |f| && curr + 2 * i >= 0 ensures f[i] == ValueAt(s, curr + 2 * i) {
          if i > 0 {
            assert f[i] == Fill(s[1..], curr + 2)[i - 1];
            assert curr + 2 * i == curr + 2 + 2 * (i - 1);
            ValueAtTail(s, curr + 2 * i);
          }
        }
      }
    }
  }

  /** The partner of `CreateMemFile`: for word-aligned entries at distinct
      addresses, in any order, image word `i` is the word stored at byte
      address `2 * i` (0 where nothing is stored), and the image ends with the
      highest address. */
  lemma ImageContents(locs: seq<Loc>)
    requires EvenAddresses(locs) && DistinctAddresses(locs)
    ensures var s := SortByAddress(locs);
      |Image(locs)| == (if locs == [] then 0 else s[|s| - 1].0 / 2 + 1)
    ensures forall i | 0 <= i < |Image(locs)| :: Image(locs)[i] == ValueAt(locs, 2 * i)
  {
    var s := SortByAddress(locs);
    SortSpec(locs);
    assert DistinctAddresses(s) by {
      forall a: nat ensures |WithAddress(s, a)| <= 1 {
        assert WithAddress(s, a) == WithAddress(locs, a);
      }
    }
    assert EvenAddresses(s) by {
      forall i | 0 <= i < |s| ensures s[i].0 % 2 == 0 {
        assert s[i] in multiset(s);
        var j :| 0 <= j < |locs| && locs[j] == s[i];
      }
    }
    SortedDistinctIncreasing(s);
    FillLength(s, 0);
    FillContents(s, 0);
    forall i | 0 <= i < |Image(locs)| ensures Image(locs)[i] == ValueAt(locs, 2 * i) {
      assert WithAddress(s, 2 * i) == WithAddress(locs, 2 * i);
    }
  }

  /** Overlapping entries are not detected: two words at address 0 are
      written one after the other, so the second lands at address 2. */
  lemma OverlapShifts()
    ensures Image([(0, 1), (0, 2)]) == [1, 2]
  {
    assert SortByAddress([(0, 2)]) == [(0, 2)];
    assert SortByAddress([(0, 1), (0, 2)]) == [(0, 1), (0, 2)];
  }
}
