/** Round and session rules shared by both front ends: game modes, level sizes,
    the per-level goal, the anti-repeat character pick, the idiom shuffle with
    its retry, and the draw of distinct spawn columns.  Randomness is an oracle
    `rand: nat -> nat`: the n-th draw of the session is `rand(n)`, and a draw
    below `m` is `Below(rand(n), m)`. */
module Rounds {
  import opened Playfield

  datatype Mode = Rotate | Pinyin | Idiom

  /** A draw reduced below `n`, the model of `Math.floor(Math.random() * n)`
      and of `random.randrange(n)`. */
  function Below(r: nat, n: nat): (i: nat)
    requires n > 0
    ensures i < n
  {
    r % n
  }

  /** ROTATE and PINYIN share the single-character rules. */
  predicate CharMode(m: Option<Mode>)
    ensures CharMode(m) <==> m == Some(Rotate) || m == Some(Pinyin)
  {
    m.Some? && !m.value.Idiom?
  }

  /** Number of levels of a mode; any mode other than ROTATE/PINYIN takes the idiom count. */
  function MaxLevel(m: Option<Mode>): nat {
    if CharMode(m) then 14 else 6
  }

  /** A character of a level with its pinyin (an entry of the level's object / dict). */
  datatype Entry = Entry(glyph: string, pinyin: string)

  /** JavaScript and Python truthiness of an optional string: present and non-empty. */
  predicate Truthy(s: Option<string>) {
    s.Some? && s.value != ""
  }

  /** The dataset of `level` (1-based); a missing level reads as empty. */
  function LevelData<T>(levels: seq<seq<T>>, level: int): seq<T> {
    if 1 <= level <= |levels| then levels[level - 1] else []
  }

  /** `max(1, floor(n * 0.1))`: a tenth of the level's size, at least one. */
  function TargetRight(n: nat): (t: nat)
    ensures t >= 1
    ensures n < 10 * (t + 1)
    ensures t == 1 || 10 * t <= n
  {
    Max(1, n / 10)
  }

  /** Rotation by a quarter turn, modulo a full turn. */
  function Turn(angle: int): (r: int)
    ensures 0 <= r < 360
    ensures RightAngle(angle) ==> RightAngle(r)
  {
    (angle + 90) % 360
  }

  predicate RightAngle(a: int) {
    a == 0 || a == 90 || a == 180 || a == 270
  }

  /** Four quarter turns bring a block back to where it started. */
  lemma FourTurns(angle: int)
    requires RightAngle(angle)
    ensures Turn(Turn(Turn(Turn(angle)))) == angle
    ensures Turn(angle) != angle
  {
  }

  // ---------------------------------------------------------------------
  // Character choice

  /** The entries whose character has not been used yet, in dataset order. */
  function Unused(ds: seq<Entry>, used: set<string>): (r: seq<Entry>)
    ensures |r| <= |ds|
  {
    if ds == [] then []
    else (if ds[0].glyph in used then [] else [ds[0]]) + Unused(ds[1..], used)
  }

  /** Exactly the unused entries are kept. */
  lemma {:induction false} UnusedMembers(ds: seq<Entry>, used: set<string>)
    ensures forall e :: e in Unused(ds, used) <==> e in ds && e.glyph !in used
  {
    if ds != [] {
      UnusedMembers(ds[1..], used);
      assert ds == [ds[0]] + ds[1..];
    }
  }

  /** The length of the unused list, counted without building it. */
  function CountUnused(ds: seq<Entry>, used: set<string>): nat {
    if ds == [] then 0 else (if ds[0].glyph in used then 0 else 1) + CountUnused(ds[1..], used)
  }

  /** Entry `k` of the unused list, found without building it. */
  function NthUnused(ds: seq<Entry>, used: set<string>, k: nat): Entry
    requires k < CountUnused(ds, used)
  {
    if ds[0].glyph !in used && k == 0 then ds[0]
    else NthUnused(ds[1..], used, if ds[0].glyph in used then k else k - 1)
  }

  /** Counting and indexing agree with the filtered list. */
  lemma {:induction false} UnusedIndex(ds: seq<Entry>, used: set<string>)
    ensures CountUnused(ds, used) == |Unused(ds, used)|
    ensures forall k :: 0 <= k < CountUnused(ds, used) ==> NthUnused(ds, used, k) == Unused(ds, used)[k]
  {
    if ds != [] {
      UnusedIndex(ds[1..], used);
    }
  }

  const SpawnAngles: seq<int> := [90, 180, 270]

  /** The outcome of the random choices of a ROTATE/PINYIN spawn. */
  datatype CharPick = CharPick(entry: Entry, resetUsed: bool, angle: int, col: nat, next: nat)

  /** Draws, in the source's order: the entry, then (ROTATE only) the angle,
      then the column; `d` is the first draw's number. */
  function PickChar(ds: seq<Entry>, used: set<string>, rotate: bool, cols: nat,
                    rand: nat -> nat, d: nat): (p: CharPick)
    requires ds != [] && cols > 0
    ensures rotate ==> p.angle == 90 || p.angle == 180 || p.angle == 270
    ensures !rotate ==> p.angle == 0
    ensures p.col < cols
    ensures p.next == d + (if rotate then 3 else 2)
  {
    var n := CountUnused(ds, used);
    // every character used: the used set is cleared and the whole level drawn from
    var reset := n == 0;
    var entry := if reset then ds[Below(rand(d), |ds|)] else NthUnused(ds, used, Below(rand(d), n));
    var angle := if rotate then SpawnAngles[Below(rand(d + 1), 3)] else 0;
    var d' := if rotate then d + 2 else d + 1;
    CharPick(entry, reset, angle, Below(rand(d'), cols), d' + 1)
  }

  /** The character comes from the level, and is an unused one unless every
      character of the level has been used, in which case the used set resets. */
  lemma PickCharFacts(ds: seq<Entry>, used: set<string>, rotate: bool, cols: nat, rand: nat -> nat, d: nat)
    requires ds != [] && cols > 0
    ensures var p := PickChar(ds, used, rotate, cols, rand, d);
      && p.entry in ds
      && (p.resetUsed <==> forall e :: e in ds ==> e.glyph in used)
      && (!p.resetUsed ==> p.entry.glyph !in used)
      && (Unused(ds, used) != [] ==> p.entry == Unused(ds, used)[Below(rand(d), |Unused(ds, used)|)])
  {
    UnusedMembers(ds, used);
    UnusedIndex(ds, used);
    var unused := Unused(ds, used);
    assert unused != [] ==> unused[0] in unused;
    if unused != [] {
      assert unused[Below(rand(d), |unused|)] in unused;
    }
  }

  /** A character block's spawn column, clamped as the source clamps it, never
      sticks out of the right wall and is aligned to a column. */
  lemma SpawnXInside(sidebarW: int, width: int, cell: int, col: nat)
    requires cell > 0 && width >= 0 && col < width / cell
    ensures Min(sidebarW + col * cell, sidebarW + width - cell) == sidebarW + col * cell
    ensures sidebarW <= sidebarW + col * cell && sidebarW + col * cell + cell <= sidebarW + width
  {
    MulMonotone(0, col, cell);
    MulMonotone(col + 1, width / cell, cell);
    assert (width / cell) * cell <= width;
  }

  // ---------------------------------------------------------------------
  // Idiom shuffle

  function Swap<T>(s: seq<T>, i: nat, j: nat): (r: seq<T>)
    requires i < |s| && j < |s|
    ensures |r| == |s|
  {
    s[i := s[j]][j := s[i]]
  }

  /** Swap exchanges the two positions and leaves every other one alone. */
  lemma SwapFacts<T>(s: seq<T>, i: nat, j: nat)
    requires i < |s| && j < |s|
    ensures Swap(s, i, j)[i] == s[j] && Swap(s, i, j)[j] == s[i]
    ensures forall k :: 0 <= k < |s| && k != i && k != j ==> Swap(s, i, j)[k] == s[k]
  {
  }

  lemma SwapPermutes<T>(s: seq<T>, i: nat, j: nat)
    requires i < |s| && j < |s|
    ensures multiset(Swap(s, i, j)) == multiset(s)
  {
  }

  /** The Fisher–Yates passes for positions j, j-1, ..., 1, each swapping
      position i with a draw below i+1. */
  function ShuffleFrom<T>(s: seq<T>, j: nat, rand: nat -> nat, d: nat): (r: seq<T>)
    requires j < |s|
    ensures |r| == |s|
    decreases j
  {
    if j == 0 then s
    else ShuffleFrom(Swap(s, j, Below(rand(d), j + 1)), j - 1, rand, d + 1)
  }

  /** One shuffle of the whole sequence, as the source's loop and `random.shuffle` do it. */
  function Shuffle<T>(s: seq<T>, rand: nat -> nat, d: nat): (r: seq<T>)
    ensures |r| == |s|
  {
    if |s| == 0 then s else ShuffleFrom(s, |s| - 1, rand, d)
  }

  lemma ShuffleStep<T>(s: seq<T>, j: nat, rand: nat -> nat, d: nat)
    requires 0 < j < |s|
    ensures ShuffleFrom(s, j, rand, d) == ShuffleFrom(Swap(s, j, Below(rand(d), j + 1)), j - 1, rand, d + 1)
  {
  }

  lemma {:induction false} ShuffleFromPermutes<T>(s: seq<T>, j: nat, rand: nat -> nat, d: nat)
    requires j < |s|
    ensures multiset(ShuffleFrom(s, j, rand, d)) == multiset(s)
    decreases j
  {
    if j > 0 {
      var k := Below(rand(d), j + 1);
      SwapPermutes(s, j, k);
      ShuffleFromPermutes(Swap(s, j, k), j - 1, rand, d + 1);
    }
  }

  /** A shuffle only rearranges. */
  lemma ShufflePermutes<T>(s: seq<T>, rand: nat -> nat, d: nat)
    ensures multiset(Shuffle(s, rand, d)) == multiset(s)
  {
    if |s| > 0 {
      ShuffleFromPermutes(s, |s| - 1, rand, d);
    }
  }

  /** Draws one shuffle of n elements consumes. */
  function Draws(n: nat): nat {
    if n == 0 then 0 else n - 1
  }

  /** Up to `attempts` shuffles of `chars`, stopping at the first that differs from
      `orig`; returns the final order and the next draw number. */
  function Retry(chars: seq<char>, orig: seq<char>, attempts: nat, rand: nat -> nat, d: nat): (r: (seq<char>, nat))
    ensures |r.0| == |chars|
    decreases attempts
  {
    if attempts == 0 then (chars, d)
    else
      var next := Shuffle(chars, rand, d);
      if next != orig then (next, d + Draws(|chars|))
      else Retry(next, orig, attempts - 1, rand, d + Draws(|chars|))
  }

  /** The shuffle the a-th attempt (from 0) performs on an unchanged original.
      Each attempt consumes one shuffle's draws, so attempt a starts a shuffles later. */
  function Attempt(orig: seq<char>, rand: nat -> nat, d: nat, a: nat): seq<char>
    decreases a
  {
    if a == 0 then Shuffle(orig, rand, d) else Attempt(orig, rand, d + Draws(|orig|), a - 1)
  }

  /** Every one of the first n attempts reproduces the original. */
  predicate EveryAttemptSame(orig: seq<char>, rand: nat -> nat, d: nat, n: nat) {
    forall a :: 0 <= a < n ==> Attempt(orig, rand, d, a) == orig
  }

  /** One unfolding of the retry on an unchanged original. */
  lemma RetryStep(orig: seq<char>, attempts: nat, rand: nat -> nat, d: nat)
    requires attempts > 0
    ensures Shuffle(orig, rand, d) != orig ==>
      Retry(orig, orig, attempts, rand, d) == (Shuffle(orig, rand, d), d + Draws(|orig|))
    ensures Shuffle(orig, rand, d) == orig ==>
      Retry(orig, orig, attempts, rand, d) == Retry(orig, orig, attempts - 1, rand, d + Draws(|orig|))
  {
  }

  lemma EveryAttemptSameStep(orig: seq<char>, rand: nat -> nat, d: nat, next: nat, n: nat)
    requires n > 0 && next == d + Draws(|orig|)
    ensures EveryAttemptSame(orig, rand, d, n) <==>
      Shuffle(orig, rand, d) == orig && EveryAttemptSame(orig, rand, next, n - 1)
  {
    assert Attempt(orig, rand, d, 0) == Shuffle(orig, rand, d);
    if EveryAttemptSame(orig, rand, d, n) {
      forall a | 0 <= a < n - 1
        ensures Attempt(orig, rand, next, a) == orig
      {
        assert Attempt(orig, rand, d, a + 1) == orig;
      }
    }
    if Shuffle(orig, rand, d) == orig && EveryAttemptSame(orig, rand, next, n - 1) {
      forall a | 0 <= a < n
        ensures Attempt(orig, rand, d, a) == orig
      {
        if a > 0 {
          assert Attempt(orig, rand, next, a - 1) == orig;
        }
      }
    }
  }

  /** The retried shuffle gives back the original order exactly when every
      attempt reproduced it. */
  lemma {:induction false} RetrySameIffEveryAttempt(orig: seq<char>, attempts: nat, rand: nat -> nat, d: nat)
    ensures Retry(orig, orig, attempts, rand, d).0 == orig <==> EveryAttemptSame(orig, rand, d, attempts)
    decreases attempts
  {
    if attempts > 0 {
      RetryStep(orig, attempts, rand, d);
      EveryAttemptSameStep(orig, rand, d, d + Draws(|orig|), attempts);
      if Shuffle(orig, rand, d) == orig {
        RetrySameIffEveryAttempt(orig, attempts - 1, rand, d + Draws(|orig|));
      }
    }
  }

  /** A shuffled idiom is a rearrangement of its characters. */
  lemma {:induction false} RetryPermutes(chars: seq<char>, orig: seq<char>, attempts: nat, rand: nat -> nat, d: nat)
    ensures multiset(Retry(chars, orig, attempts, rand, d).0) == multiset(chars)
    decreases attempts
  {
    if attempts > 0 {
      ShufflePermutes(chars, rand, d);
      RetryPermutes(Shuffle(chars, rand, d), orig, attempts - 1, rand, d + Draws(|chars|));
    }
  }

  /** One shuffle in place, drawing for positions |a|-1 down to 1. */
  method ShuffleInPlace(a: array<char>, rand: nat -> nat, d: nat) returns (d': nat)
    modifies a
    ensures a[..] == Shuffle(old(a[..]), rand, d)
    ensures d' == d + Draws(a.Length)
  {
    d' := d;
    if a.Length == 0 {
      return;
    }
    var j := a.Length - 1;
    while j > 0
      invariant 0 <= j < a.Length
      invariant ShuffleFrom(a[..], j, rand, d') == Shuffle(old(a[..]), rand, d)
      invariant d' == d + (a.Length - 1 - j)
    {
      var k := Below(rand(d'), j + 1);
      ghost var before := a[..];
      ShuffleStep(before, j, rand, d');
      a[j], a[k] := a[k], a[j];
      SwapFacts(before, j, k);
      assert a[..] == Swap(before, j, k);
      j := j - 1;
      d' := d' + 1;
    }
  }

  /** Shuffle until the order differs from the original, at most ten times. */
  method ShuffleWithRetry(a: array<char>, rand: nat -> nat, d: nat) returns (d': nat)
    modifies a
    ensures (a[..], d') == Retry(old(a[..]), old(a[..]), 10, rand, d)
  {
    var original := a[..];
    d' := d;
    var attempt := 0;
    while attempt < 10
      invariant 0 <= attempt <= 10
      invariant a[..] == original
      invariant Retry(original, original, 10, rand, d) == Retry(original, original, 10 - attempt, rand, d')
    {
      RetryStep(original, 10 - attempt, rand, d');
      d' := ShuffleInPlace(a, rand, d');
      if a[..] != original {
        return;
      }
      attempt := attempt + 1;
    }
  }

  // ---------------------------------------------------------------------
  // Spawn columns

  predicate Distinct<T(==)>(s: seq<T>) {
    forall i, j :: 0 <= i < j < |s| ==> s[i] != s[j]
  }

  /** `filter(b => b !== x)` / `list.remove(x)` on a list without repeats. */
  function Without<T(==)>(s: seq<T>, x: T): (r: seq<T>)
    ensures |r| <= |s|
  {
    if s == [] then []
    else if s[0] == x then Without(s[1..], x)
    else [s[0]] + Without(s[1..], x)
  }

  /** Removing `x` keeps every other element, keeps the list free of repeats,
      and drops exactly one element when `x` was there once. */
  lemma {:induction false} WithoutFacts<T>(s: seq<T>, x: T)
    ensures forall y :: y in Without(s, x) <==> y in s && y != x
    ensures Distinct(s) ==> Distinct(Without(s, x))
    ensures Distinct(s) && x in s ==> |Without(s, x)| == |s| - 1
    ensures x in s ==> |Without(s, x)| < |s|
    ensures x !in s ==> Without(s, x) == s
  {
    if s != [] {
      WithoutFacts(s[1..], x);
      assert s == [s[0]] + s[1..];
      assert Distinct(s) ==> s[0] !in s[1..] by {
        if Distinct(s) {
          assert forall k :: 1 <= k < |s| ==> s[0] != s[k];
        }
      }
    }
  }

  /** Removing the one occurrence of `x` from `a + [x] + c` leaves `a + c`. */
  lemma {:induction false} WithoutSplice<T>(a: seq<T>, x: T, c: seq<T>)
    requires x !in a && x !in c
    ensures Without(a + [x] + c, x) == a + c
  {
    if a == [] {
      assert a + [x] + c == [x] + c;
      WithoutFacts(c, x);
    } else {
      assert (a + [x] + c)[1..] == a[1..] + [x] + c;
      WithoutSplice(a[1..], x, c);
      assert a + c == [a[0]] + (a[1..] + c);
    }
  }

  /** A list without repeats drawn from `t` is no longer than `t`. */
  lemma {:induction false} DistinctWithin<T>(s: seq<T>, t: seq<T>)
    requires Distinct(s) && forall x :: x in s ==> x in t
    ensures |s| <= |t|
  {
    if s != [] {
      var rest := Without(t, s[0]);
      WithoutFacts(t, s[0]);
      forall x | x in s[1..] ensures x in rest {
        var k :| 1 <= k < |s| && s[k] == x;
        assert s[0] != s[k];
      }
      DistinctWithin(s[1..], rest);
    }
  }

  function Range(n: nat): (r: seq<int>)
    ensures |r| == n
  {
    if n == 0 then [] else Range(n - 1) + [n - 1]
  }

  lemma {:induction false} RangeFacts(n: nat)
    ensures forall i :: 0 <= i < n ==> Range(n)[i] == i
    ensures forall x :: x in Range(n) <==> 0 <= x < n
    ensures Distinct(Range(n))
  {
    if n > 0 {
      RangeFacts(n - 1);
    }
  }

  function RemoveAt<T>(s: seq<T>, i: nat): (r: seq<T>)
    requires i < |s|
    ensures |r| == |s| - 1
  {
    s[..i] + s[i + 1..]
  }

  lemma RemoveAtFacts<T>(s: seq<T>, i: nat)
    requires i < |s|
    ensures forall x :: x in RemoveAt(s, i) ==> x in s
    ensures Distinct(s) ==> Distinct(RemoveAt(s, i)) && s[i] !in RemoveAt(s, i)
  {
    var r := RemoveAt(s, i);
    assert forall k :: 0 <= k < |r| ==> r[k] == if k < i then s[k] else s[k + 1];
  }

  /** The browser's draw: pick an index below the number of columns left and splice it out, k times. */
  function SpliceDraw(avail: seq<int>, k: nat, rand: nat -> nat, d: nat): (r: seq<int>)
    requires k <= |avail|
    ensures |r| == k
    decreases k
  {
    if k == 0 then []
    else
      var idx := Below(rand(d), |avail|);
      [avail[idx]] + SpliceDraw(RemoveAt(avail, idx), k - 1, rand, d + 1)
  }

  /** Every spliced column was available, and none is drawn twice. */
  lemma {:induction false} SpliceDrawFacts(avail: seq<int>, k: nat, rand: nat -> nat, d: nat)
    requires k <= |avail|
    ensures forall x :: x in SpliceDraw(avail, k, rand, d) ==> x in avail
    ensures Distinct(avail) ==> Distinct(SpliceDraw(avail, k, rand, d))
    decreases k
  {
    if k > 0 {
      var idx := Below(rand(d), |avail|);
      var rest := RemoveAt(avail, idx);
      RemoveAtFacts(avail, idx);
      SpliceDrawFacts(rest, k - 1, rand, d + 1);
    }
  }

  /** The prototype's draw, `random.sample` on a small population: pick an index
      below the live pool size, then move the pool's last element into that slot. */
  function PoolDraw(pool: seq<int>, k: nat, rand: nat -> nat, d: nat): (r: seq<int>)
    requires k <= |pool|
    ensures |r| == k
    decreases k
  {
    if k == 0 then []
    else
      var j := Below(rand(d), |pool|);
      [pool[j]] + PoolDraw(pool[j := pool[|pool| - 1]][..|pool| - 1], k - 1, rand, d + 1)
  }

  /** Every sampled column was in the pool, and none is drawn twice. */
  lemma {:induction false} PoolDrawFacts(pool: seq<int>, k: nat, rand: nat -> nat, d: nat)
    requires k <= |pool|
    ensures forall x :: x in PoolDraw(pool, k, rand, d) ==> x in pool
    ensures Distinct(pool) ==> Distinct(PoolDraw(pool, k, rand, d))
    decreases k
  {
    if k > 0 {
      var j := Below(rand(d), |pool|);
      var rest := pool[j := pool[|pool| - 1]][..|pool| - 1];
      assert forall a :: 0 <= a < |rest| ==> rest[a] == if a == j then pool[|pool| - 1] else pool[a];
      assert forall x :: x in rest ==> x in pool;
      assert Distinct(pool) ==> Distinct(rest) && pool[j] !in rest by {
        if Distinct(pool) {
          forall a, b | 0 <= a < b < |rest| ensures rest[a] != rest[b] {
            assert rest[a] == (if a == j then pool[|pool| - 1] else pool[a]);
            assert rest[b] == (if b == j then pool[|pool| - 1] else pool[b]);
          }
          forall a | 0 <= a < |rest| ensures rest[a] != pool[j] {
            assert rest[a] == (if a == j then pool[|pool| - 1] else pool[a]);
          }
        }
      }
      PoolDrawFacts(rest, k - 1, rand, d + 1);
    }
  }

  /** One splice, moved from the columns still available to those picked. */
  lemma SpliceDrawStep(picked: seq<int>, avail: seq<int>, k: nat, rand: nat -> nat, d: nat, idx: nat)
    requires 0 < k <= |avail| && idx == Below(rand(d), |avail|)
    ensures picked + SpliceDraw(avail, k, rand, d)
      == (picked + [avail[idx]]) + SpliceDraw(RemoveAt(avail, idx), k - 1, rand, d + 1)
  {
    var tail := SpliceDraw(RemoveAt(avail, idx), k - 1, rand, d + 1);
    assert (picked + [avail[idx]]) + tail == picked + ([avail[idx]] + tail);
  }

  /** The browser's column loop: draws min(4, cols) distinct columns. */
  method DrawColumns(cols: nat, rand: nat -> nat, d: nat) returns (picked: seq<int>, d': nat)
    ensures picked == SpliceDraw(Range(cols), Min(4, cols), rand, d)
    ensures d' == d + Min(4, cols)
  {
    var k := Min(4, cols);
    var available := Range(cols);
    ghost var all := SpliceDraw(available, k, rand, d);
    picked := [];
    d' := d;
    var i := 0;
    while i < k
      invariant 0 <= i <= k && k - i <= |available| && d' == d + i
      invariant picked + SpliceDraw(available, k - i, rand, d') == all
    {
      var idx := Below(rand(d'), |available|);
      SpliceDrawStep(picked, available, k - i, rand, d', idx);
      picked := picked + [available[idx]];
      available := RemoveAt(available, idx);
      d' := d' + 1;
      i := i + 1;
    }
    assert picked + [] == picked;
  }

  // ---------------------------------------------------------------------
  // Ascending sort of the drawn columns

  predicate StrictlyAscending(s: seq<int>) {
    forall i, j :: 0 <= i < j < |s| ==> s[i] < s[j]
  }
  function Insert(x: int, s: seq<int>): (r: seq<int>)
    ensures |r| == |s| + 1 && multiset(r) == multiset(s) + multiset{x}
  {
    if s == [] || x <= s[0] then [x] + s
    else
      assert s == [s[0]] + s[1..];
      [s[0]] + Insert(x, s[1..])
  }

  lemma {:induction false} InsertMembers(x: int, s: seq<int>)
    ensures forall y :: y in Insert(x, s) <==> y == x || y in s
  {
    if s != [] && x > s[0] {
      InsertMembers(x, s[1..]);
      assert s == [s[0]] + s[1..];
    }
  }

  lemma {:induction false} InsertAscending(x: int, s: seq<int>)
    requires StrictlyAscending(s) && x !in s
    ensures StrictlyAscending(Insert(x, s))
  {
    if s != [] && x > s[0] {
      assert x !in s[1..];
      InsertAscending(x, s[1..]);
      InsertMembers(x, s[1..]);
      var rest := Insert(x, s[1..]);
      assert Insert(x, s) == [s[0]] + rest;
      forall y | y in rest ensures s[0] < y {
        if y != x {
          var k :| 0 <= k < |s[1..]| && s[1..][k] == y;
          assert s[k + 1] == y;
        }
      }
      var r := [s[0]] + rest;
      forall i, j | 0 <= i < j < |r| ensures r[i] < r[j] {
        if i == 0 {
          assert r[j] == rest[j - 1] && rest[j - 1] in rest;
        } else {
          assert r[i] == rest[i - 1] && r[j] == rest[j - 1];
        }
      }
    } else {
      var r := [x] + s;
      if s != [] {
        assert x < s[0];
      }
      forall i, j | 0 <= i < j < |r| ensures r[i] < r[j] {
        if i == 0 {
          assert r[j] == s[j - 1];
        } else {
          assert r[i] == s[i - 1] && r[j] == s[j - 1];
        }
      }
    }
  }

  /** Numeric ascending sort (`cols.sort((a, b) => a - b)` / `cols.sort()`). */
  function SortAscending(s: seq<int>): (r: seq<int>)
    ensures |r| == |s| && multiset(r) == multiset(s)
  {
    if s == [] then []
    else
      assert s == [s[0]] + s[1..];
      Insert(s[0], SortAscending(s[1..]))
  }

  /** Sorting keeps exactly the elements it was given. */
  lemma {:induction false} SortMembers(s: seq<int>)
    ensures forall y :: y in SortAscending(s) <==> y in s
  {
    if s != [] {
      SortMembers(s[1..]);
      InsertMembers(s[0], SortAscending(s[1..]));
      assert s == [s[0]] + s[1..];
    }
  }

  lemma {:induction false} SortAscendingStrict(s: seq<int>)
    requires Distinct(s)
    ensures StrictlyAscending(SortAscending(s))
  {
    if s != [] {
      assert Distinct(s[1..]);
      SortAscendingStrict(s[1..]);
      SortMembers(s[1..]);
      assert s[0] !in s[1..];
      InsertAscending(s[0], SortAscending(s[1..]));
    }
  }

  /** The columns an idiom's blocks are placed in are distinct valid columns in
      ascending order, one per block, in both front ends. */
  lemma SpawnColumnsAscending(cols: nat, rand: nat -> nat, d: nat)
    ensures var c := SortAscending(SpliceDraw(Range(cols), Min(4, cols), rand, d));
      |c| == Min(4, cols) && StrictlyAscending(c) && forall x :: x in c ==> 0 <= x < cols
    ensures var c := SortAscending(PoolDraw(Range(cols), Min(4, cols), rand, d));
      |c| == Min(4, cols) && StrictlyAscending(c) && forall x :: x in c ==> 0 <= x < cols
  {
    RangeFacts(cols);
    SpliceDrawFacts(Range(cols), Min(4, cols), rand, d);
    PoolDrawFacts(Range(cols), Min(4, cols), rand, d);
    SortAscendingStrict(SpliceDraw(Range(cols), Min(4, cols), rand, d));
    SortAscendingStrict(PoolDraw(Range(cols), Min(4, cols), rand, d));
    SortMembers(SpliceDraw(Range(cols), Min(4, cols), rand, d));
    SortMembers(PoolDraw(Range(cols), Min(4, cols), rand, d));
  }

  // ---------------------------------------------------------------------
  // The idiom round's draws

  /** How a front end draws the idiom's columns: the browser's splice loop or
      the prototype's `random.sample`. */
  datatype ColumnDraw = Splice | Sample

  /** What an IDIOM spawn draws: the target, its shuffled characters, the
      spawn columns in ascending order, and the number of the next draw. */
  datatype IdiomDeal = IdiomDeal(target: string, chars: seq<char>, cols: seq<int>, next: nat)

  /** Draw order of the source: the idiom, the shuffle with its retries, then
      the columns. */
  function DealIdiom(idioms: seq<string>, cols: nat, how: ColumnDraw, rand: nat -> nat, d: nat): (r: IdiomDeal)
    requires idioms != []
    ensures r.target in idioms && |r.chars| == |r.target|
    ensures |r.cols| == Min(4, cols) && forall k :: 0 <= k < |r.cols| ==> 0 <= r.cols[k] < cols
  {
    var t := idioms[Below(rand(d), |idioms|)];
    var sh := Retry(t, t, 10, rand, d + 1);
    IdiomDeal(t, sh.0, SpawnColumns(cols, how, rand, sh.1), sh.1 + Min(4, cols))
  }

  /** The spawn columns: min(4, cols) distinct valid columns, ascending. */
  function SpawnColumns(cols: nat, how: ColumnDraw, rand: nat -> nat, d: nat): (c: seq<int>)
    ensures |c| == Min(4, cols) && forall k :: 0 <= k < |c| ==> 0 <= c[k] < cols
  {
    var drawn := if how == Splice then SpliceDraw(Range(cols), Min(4, cols), rand, d)
                 else PoolDraw(Range(cols), Min(4, cols), rand, d);
    var c := SortAscending(drawn);
    assert forall k :: 0 <= k < |c| ==> 0 <= c[k] < cols by {
      SpawnColumnsAscending(cols, rand, d);
      forall k | 0 <= k < |c|
        ensures 0 <= c[k] < cols
      {
        assert c[k] in c;
      }
    }
    c
  }

  /** The target's characters copied into an array and shuffled there, with the retry. */
  method ShuffleCopy(t: seq<char>, rand: nat -> nat, d: nat) returns (shuffled: seq<char>, d': nat)
    ensures (shuffled, d') == Retry(t, t, 10, rand, d)
  {
    var chars := new char[|t|](i requires 0 <= i < |t| => t[i]);
    assert chars[..] == t;
    d' := ShuffleWithRetry(chars, rand, d);
    shuffled := chars[..];
  }

  /** The draws as the source performs them, on an array of characters. */
  method Deal(idioms: seq<string>, cols: nat, how: ColumnDraw, rand: nat -> nat, d: nat) returns (r: IdiomDeal)
    requires idioms != []
    ensures r == DealIdiom(idioms, cols, how, rand, d)
  {
    var t := idioms[Below(rand(d), |idioms|)];
    var shuffled, d1 := ShuffleCopy(t, rand, d + 1);
    var picked, d2;
    if how == Splice {
      picked, d2 := DrawColumns(cols, rand, d1);
    } else {
      // `random.sample` is a library call: its draws are taken as specified
      picked, d2 := PoolDraw(Range(cols), Min(4, cols), rand, d1), d1 + Min(4, cols);
    }
    r := IdiomDeal(t, shuffled, SortAscending(picked), d2);
  }

  /** The dealt characters are the target's, rearranged, and differ from the
      target's own order unless all ten shuffles gave it back; the columns are
      strictly ascending. */
  lemma DealFacts(idioms: seq<string>, cols: nat, how: ColumnDraw, rand: nat -> nat, d: nat)
    requires idioms != []
    ensures var r := DealIdiom(idioms, cols, how, rand, d);
      && multiset(r.chars) == multiset(r.target)
      && (r.chars == r.target <==> EveryAttemptSame(r.target, rand, d + 1, 10))
      && StrictlyAscending(r.cols)
  {
    var t := idioms[Below(rand(d), |idioms|)];
    RetryPermutes(t, t, 10, rand, d + 1);
    RetrySameIffEveryAttempt(t, 10, rand, d + 1);
    SpawnColumnsAscending(cols, rand, Retry(t, t, 10, rand, d + 1).1);
  }
}
