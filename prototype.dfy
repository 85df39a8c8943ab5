/** The pygame prototype (vibe/src/main.py): the same game as the browser port
    on a fixed 960 by 600 window.  It differs in its scoring (five points per
    level, ten per idiom), in advancing a level by itself once enough answers
    are right, in its whole-pixel fall step that lands a block one step early
    at the floor, in re-checking the answer on every key code up to 127, and in
    walking the live list of falling blocks while the frame changes it.
    Wall-clock time is the `now` parameter of each handler; randomness is the
    oracle `rand` with `drawn` counting the draws made so far. */
module Prototype {
  import opened Playfield
  import opened Rounds
  import ToneMarks

  /** The pygame key codes the key handler tests. */
  const KeyBackspace := 8
  const KeySpace := 32
  const KeyRight := 1073741903
  const KeyLeft := 1073741904

  /** The window: 960 by 600 pixels, a sidebar of a fifth of the width and
      cells of a tenth of the height. */
  const Width := 960
  const Height := 600
  const SidebarW := Width / 5
  const Cell := Height / 10

  /** The window's numbers: a 192-pixel sidebar and a 768 by 600 playfield
      of 60-pixel cells, twelve columns by ten rows. */
  lemma WindowLayout()
    ensures SidebarW == 192 && Width - SidebarW == 768 && Cell == 60
    ensures (Width - SidebarW) / Cell == 12 && Height / Cell == 10
  {
    DivUnique(960, 5, 192, 0);
    DivUnique(600, 10, 60, 0);
    DivUnique(768, 60, 12, 48);
    DivUnique(600, 60, 10, 0);
  }

  /** The points of one right answer: five per level in ROTATE and PINYIN,
      a flat ten in IDIOM. */
  function Points(m: Option<Mode>, level: int): int {
    if CharMode(m) then 5 * level else 10
  }

  /** `ch.isalpha()` on the text of a key event (ASCII letters). */
  predicate Alpha(u: string) {
    |u| == 1 && ToneMarks.IsAsciiLetter(u[0])
  }

  /** What a key event with code `key` and text `u` does to the typed PINYIN
      answer: Backspace drops the last character; any other code up to 127
      appends the lower-cased letter when its text is one; anything else is
      ignored.  Only lower-case letters ever get in, and apart from Backspace
      the answer only grows. */
  function TypeEvent(typed: string, key: int, u: string): (r: string)
    ensures (forall i :: 0 <= i < |typed| ==> 'a' <= typed[i] <= 'z') ==>
              forall i :: 0 <= i < |r| ==> 'a' <= r[i] <= 'z'
    ensures key != KeyBackspace ==> typed <= r && |r| <= |typed| + 1
    ensures key == KeyBackspace ==> r <= typed && |r| == if typed == [] then 0 else |typed| - 1
  {
    if key == KeyBackspace then (if typed == [] then typed else typed[..|typed| - 1])
    else if key <= 127 && Alpha(u) then typed + [ToneMarks.Lower(u[0])]
    else typed
  }

  /** Backspace takes back the letter just typed. */
  lemma BackspaceUndoes(typed: string, key: int, c: char)
    requires key <= 127 && key != KeyBackspace && ToneMarks.IsAsciiLetter(c)
    ensures TypeEvent(TypeEvent(typed, key, [c]), KeyBackspace, "") == typed
  {
    var t := typed + [ToneMarks.Lower(c)];
    assert TypeEvent(typed, key, [c]) == t;
    assert t[..|t| - 1] == typed;
  }

  /** The answer is re-checked on every key code up to 127, but a key whose
      text is not a letter leaves it as it is: once the answer is complete,
      Space (or any such key) finds it complete again. */
  lemma NonLetterKeepsAnswer(typed: string, key: int, u: string)
    requires key <= 127 && key != KeyBackspace && !Alpha(u)
    ensures TypeEvent(typed, key, u) == typed
  {
  }

  /** The step of one frame in whole pixels: 8 while the down arrow is held
      and 2 otherwise, halved in IDIOM. */
  function FrameStep(m: Option<Mode>, down: bool): (step: nat)
    ensures 1 <= step <= 8
    ensures step * (if m == Some(Idiom) then 2 else 1) == (if down then 8 else 2)
  {
    var speed := if down then 8 else 2;
    if m == Some(Idiom) then speed / 2 else speed
  }

  /** The game as a falling block finds it just before it comes to rest:
      score, level and mode, whether one more right answer completes the
      level, whether the block is the right way up in ROTATE, and the grid. */
  datatype Before = Before(score: int, level: int, mode: Option<Mode>, levelsUp: bool, upright: bool,
                           cells: map<(int, int), Option<string>>)

  /** Block `j` of the live list `s` took its turn of the frame: the block
      right after one that came to rest was skipped, and any other took its
      step as `Stepped` says. */
  twostate predicate TookTurn(s: seq<Block>, j: nat, step: int)
    requires j < |s|
    reads s
  {
    if j > 0 && Landed(s[j - 1]) then Kept(s[j]) else Stepped(s[j], step)
  }

  /** `TookTurn` for block `j`, told by where the blocks stood when the
      frame began (`p0`) and where they stand now (`p`), each as column
      offset, height and settled flag. */
  ghost predicate TurnTaken(p0: seq<(int, int, bool)>, p: seq<(int, int, bool)>, step: int, j: int)
    requires 0 <= j < |p0| == |p|
  {
    if j > 0 && !p0[j - 1].2 && p[j - 1].2 then p[j].1 == p0[j].1 && p[j].2 == p0[j].2
    else if p0[j].2 then p[j].1 == p0[j].1 && p[j].2
    else p[j].2 || p[j].1 == p0[j].1 + step
  }

  /** How far the frame loop has got over the live list as the frame began,
      whose blocks stood at `p0` then and stand at `p` now: blocks from `k`
      on are untouched, and the block at `k` follows one that did not come
      to rest; blocks before `k` took their turn; `first` is the first of
      them to land (`k` while none has), and it and the falling blocks
      before it ended where `d` said. */
  ghost predicate Progress(p0: seq<(int, int, bool)>, p: seq<(int, int, bool)>, d: seq<(bool, int)>,
                           step: int, k: int, first: int)
  {
    && |p0| == |p| && |d| == |p| && 0 <= first <= k <= |p|
    && (forall j :: 0 <= j < |p| ==> p[j].0 == p0[j].0)
    && (forall j :: k <= j < |p| ==> p[j] == p0[j])
    && (0 < k < |p| ==> p0[k - 1].2 || !p[k - 1].2)
    && (forall j :: 0 <= j < k ==> TurnTaken(p0, p, step, j))
    && (forall j :: 0 <= j < first ==> p0[j].2 || (!p[j].2 && !d[j].0 && p[j].1 == d[j].1))
    && (first < k ==> !p0[first].2 && p[first].2 && (true, p[first].1) == d[first])
  }

  /** The block at `k` took its step without landing (or was settled and
      left alone) and now stands at `q`: the loop moves on to `k + 1`. */
  lemma ProgressPass(p0: seq<(int, int, bool)>, p: seq<(int, int, bool)>, d: seq<(bool, int)>,
                     step: int, k: int, first: int, q: (int, int, bool))
    requires Progress(p0, p, d, step, k, first) && k < |p| && q.0 == p[k].0
    requires if p0[k].2 then q.1 == p0[k].1 && q.2 else !q.2 && q.1 == p0[k].1 + step
    requires first == k && !p0[k].2 ==> (false, q.1) == d[k]
    ensures Progress(p0, p[k := q], d, step, k + 1, if first == k then k + 1 else first)
  {
    var p' := p[k := q];
    forall j | 0 <= j < k + 1
      ensures TurnTaken(p0, p', step, j)
    {
      if j < k {
        assert TurnTaken(p0, p, step, j);
      }
    }
  }

  /** The block at `k` came to rest at `q`: it leaves the live list, so the
      loop passes over the block after it, which stays untouched. */
  lemma ProgressLand(p0: seq<(int, int, bool)>, p: seq<(int, int, bool)>, d: seq<(bool, int)>,
                     step: int, k: int, first: int, q: (int, int, bool))
    requires Progress(p0, p, d, step, k, first) && k < |p| && q.0 == p[k].0
    requires !p0[k].2 && q.2 && (first == k ==> (true, q.1) == d[k])
    ensures Progress(p0, p[k := q], d, step, if k + 1 < |p| then k + 2 else |p|, first)
  {
    var p' := p[k := q];
    var k' := if k + 1 < |p| then k + 2 else |p|;
    forall j | 0 <= j < k'
      ensures TurnTaken(p0, p', step, j)
    {
      if j < k {
        assert TurnTaken(p0, p, step, j);
      }
    }
  }

  /** The frame loop's bookkeeping for the block at `k` of `s`, now standing
      at `q`: the live list `kept + s[k..]` loses that block when it `landed`
      and keeps it otherwise, and the loop moves on as `ProgressPass` and
      `ProgressLand` say. */
  lemma PassOver(s: seq<Block>, p0: seq<(int, int, bool)>, p: seq<(int, int, bool)>, d: seq<(bool, int)>,
                step: int, k: nat, first: nat, kept: seq<Block>, q: (int, int, bool), landed: bool)
    returns (k': nat, kept': seq<Block>, first': nat)
    requires Progress(p0, p, d, step, k, first) && |p| == |s| && k < |s|
    requires Distinct(kept + s[k..]) && q.0 == p[k].0
    requires landed <==> !p0[k].2 && q.2
    requires !landed ==> if p0[k].2 then q.1 == p0[k].1 && q.2 else !q.2 && q.1 == p0[k].1 + step
    requires landed && first == k ==> (true, q.1) == d[k]
    requires !landed && first == k && !p0[k].2 ==> (false, q.1) == d[k]
    ensures Progress(p0, p[k := q], d, step, k', first')
    ensures k' == if !landed then k + 1 else if k + 1 < |s| then k + 2 else |s|
    ensures first' == if !landed && first == k then k + 1 else first
    ensures kept' + s[k'..] == if landed then Without(kept + s[k..], s[k]) else kept + s[k..]
    ensures |kept'| <= |kept| + 1 && (k' < |s| ==> |kept'| == |kept| + 1)
  {
    assert s[k..] == [s[k]] + s[k + 1..];
    assert kept + s[k..] == kept + [s[k]] + s[k + 1..];
    assert s[k] !in kept && s[k] !in s[k + 1..] by {
      var w := kept + s[k..];
      assert w[|kept|] == s[k];
      forall m | 0 <= m < |kept|
        ensures kept[m] != s[k]
      {
        assert w[m] == kept[m];
      }
      forall m | k + 1 <= m < |s|
        ensures s[m] != s[k]
      {
        assert w[|kept| + m - k] == s[m];
      }
    }
    if !landed {
      ProgressPass(p0, p, d, step, k, first, q);
      k', kept', first' := k + 1, kept + [s[k]], if first == k then k + 1 else first;
    } else {
      ProgressLand(p0, p, d, step, k, first, q);
      WithoutSplice(kept, s[k], s[k + 1..]);
      if k + 1 < |s| {
        assert s[k + 1..] == [s[k + 1]] + s[k + 2..];
        k', kept' := k + 2, kept + [s[k + 1]];
      } else {
        k', kept' := |s|, kept;
      }
      first' := first;
    }
  }

  /** Where the frame loop stands in the live list as the frame began (`s`):
      the next untouched block `k`, the blocks `kept` it has passed that are
      still falling, whether a new round has `renewed` the list, and the
      `first` block to land (`k` while none has). */
  datatype Pass = Pass(k: nat, kept: seq<Block>, renewed: bool, first: nat)

  /** The frame loop at position `i` of the live list `live`, with the
      blocks of `s` standing at `p`: until a new round starts, `live` is
      `kept` followed by the untouched blocks of `s`; after it, `live` holds
      none of `s`. */
  ghost predicate Tracks(s: seq<Block>, p0: seq<(int, int, bool)>, p: seq<(int, int, bool)>, d: seq<(bool, int)>,
                         step: int, live: seq<Block>, i: nat, t: Pass)
  {
    && |p| == |s| && Progress(p0, p, d, step, t.k, t.first)
    && (t.renewed ==> t.k == |s| && t.first < |s| && forall b :: b in live ==> b !in s)
    && (!t.renewed ==> live == t.kept + s[t.k..] && |t.kept| <= i && (t.k < |s| ==> i == |t.kept|))
    && (t.first == t.k ==> !t.renewed)
  }

  /** One turn of the frame loop, told in values: the block `blk` at `i` of
      the live list `was` now stands at `q` and `landed` or not; the live
      list is then `live`, which a new round (`renew`) fills with blocks not
      in `s`.  The loop's bookkeeping moves on to `t'`, and while no block of
      `s` has landed, this one did not either. */
  lemma TrackTurn(s: seq<Block>, p0: seq<(int, int, bool)>, p: seq<(int, int, bool)>, p': seq<(int, int, bool)>,
                  d: seq<(bool, int)>, step: int, was: seq<Block>, i: nat, t: Pass, blk: Block,
                  q: (int, int, bool), landed: bool, live: seq<Block>, renew: bool)
    returns (t': Pass)
    requires Tracks(s, p0, p, d, step, was, i, t) && Distinct(was) && i < |was| && blk == was[i]
    requires !t.renewed ==> t.k < |s| && blk == s[t.k] && p' == p[t.k := q] && q.0 == p[t.k].0
    requires t.renewed ==> p' == p
    requires !t.renewed ==> (landed <==> !p[t.k].2 && q.2)
    requires !t.renewed && !landed ==>
      if p[t.k].2 then q.1 == p[t.k].1 && q.2 else !q.2 && q.1 == p[t.k].1 + step
    requires !t.renewed && landed && t.first == t.k ==> (true, q.1) == d[t.k]
    requires !t.renewed && !landed && t.first == t.k && !p[t.k].2 ==> (false, q.1) == d[t.k]
    requires !landed ==> live == was
    requires landed && !renew ==> live == Without(was, blk)
    requires renew ==> landed && (|was| <= 1 || Without(was, blk) == []) && forall b :: b in live ==> b !in s
    ensures Tracks(s, p0, p', d, step, live, i + 1, t')
    ensures t'.first == t'.k ==> t.first == t.k && !t.renewed && !landed && t'.k == t.k + 1
  {
    WithoutFacts(was, blk);
    if t.renewed {
      t' := t;
    } else {
      assert p[t.k] == p0[t.k];
      var k', kept', first' := PassOver(s, p0, p, d, step, t.k, t.first, t.kept, q, landed);
      t' := Pass(k', kept', renew, first');
    }
  }

  /** The frame loop starts at the head of the live list, with nothing moved. */
  lemma TracksStart(s: seq<Block>, p0: seq<(int, int, bool)>, d: seq<(bool, int)>, step: int)
    requires |p0| == |s| == |d|
    ensures Tracks(s, p0, p0, d, step, s, 0, Pass(0, [], false, 0))
  {
    assert s[0..] == s;
  }

  /** Once the loop has run off the end of the live list, every block of
      `s` has had its turn. */
  lemma TracksDone(s: seq<Block>, live: seq<Block>, i: nat, t: Pass)
    requires t.k <= |s| && (t.renewed ==> t.k == |s|) && |live| <= i
    requires !t.renewed ==> live == t.kept + s[t.k..] && (t.k < |s| ==> i == |t.kept|)
    ensures t.k == |s|
  {
    assert !t.renewed ==> |live| == |t.kept| + |s| - t.k;
  }

  class Game {
    const grid: Grid
    /** Per level, the characters with their pinyin (level n at index n - 1). */
    const charLevels: seq<seq<Entry>>
    /** Per level, the idioms. */
    const idiomLevels: seq<seq<string>>
    const rand: nat -> nat
    var drawn: nat

    var mode: Option<Mode>
    var score: int
    var level: int
    var rightCount: int
    var targetRight: int

    var currentBlocks: seq<Block>
    var currentChar: Option<string>
    var currentPinyin: Option<string>
    var typed: string
    var idiomTarget: Option<string>
    var idiomClickIndex: int
    var idiomClickedBlocks: seq<Block>
    var idiomSuccessUntil: int
    var pinyinSuccessUntil: int
    var usedChars: set<string>

    /** The blocks the current round spawned. */
    ghost var roundBlocks: seq<Block>

    /** The layout of the window and the level bounds that no handler changes. */
    ghost predicate Settings()
      reads this`level, this`mode
    {
      && grid.Valid() && grid.left == SidebarW && grid.top == 0
      && grid.width == Width - SidebarW && grid.height == Height && grid.cell == Cell
      && grid.cols == 12 && grid.rows == 10
      && 1 <= level <= 14 && (mode == Some(Idiom) ==> level <= 6)
    }

    /** A block of the round: one cell in size, between the walls, floor and
        ceiling, turned by a multiple of a quarter turn. */
    ghost predicate BlockOk(b: Block)
      reads b`x, b`y, b`angle
    {
      && b.size == grid.cell
      && grid.left <= b.x && b.x + b.size <= grid.left + grid.width
      && grid.top <= b.y && b.y + b.size <= grid.top + grid.height
      && RightAngle(b.angle)
    }

    /** The click sequence is a prefix of the target, one distinct block per
        character clicked so far. */
    ghost predicate ClicksFollowTarget()
      reads this`idiomClickIndex, this`idiomClickedBlocks, this`idiomTarget
    {
      && idiomClickIndex == |idiomClickedBlocks|
      && Distinct(idiomClickedBlocks)
      && (idiomTarget.None? ==> idiomClickedBlocks == [])
      && (idiomTarget.Some? ==>
            && |idiomClickedBlocks| <= |idiomTarget.value|
            && forall i :: 0 <= i < |idiomClickedBlocks| ==>
                 idiomClickedBlocks[i].glyph == [idiomTarget.value[i]])
    }

    /** Every block on the field and every clicked block was spawned by the
        current round, which spawned at most four blocks (one in ROTATE and
        PINYIN). */
    ghost predicate FromRound()
      reads this`mode, this`currentBlocks, this`idiomClickedBlocks, this`roundBlocks
    {
      && |roundBlocks| <= 4
      && (CharMode(mode) ==> |roundBlocks| <= 1)
      && (forall b :: b in roundBlocks ==> b.size == grid.cell)
      && (forall b :: b in currentBlocks ==> b in roundBlocks)
      && (forall b :: b in idiomClickedBlocks ==> b in roundBlocks)
    }

    /** Only lower-case ASCII letters are ever typed. */
    ghost predicate TypedLetters()
      reads this`typed
    {
      forall i :: 0 <= i < |typed| ==> 'a' <= typed[i] <= 'z'
    }

    ghost predicate Valid()
      reads this`mode, this`level, this`currentBlocks, this`idiomClickIndex
      reads this`idiomClickedBlocks, this`idiomTarget, this`roundBlocks, this`typed
      reads currentBlocks`x, currentBlocks`y, currentBlocks`angle
    {
      && Settings()
      && (mode.None? ==> currentBlocks == [])
      && Distinct(currentBlocks)
      && (forall b :: b in currentBlocks ==> BlockOk(b))
      && ClicksFollowTarget() && FromRound() && TypedLetters()
    }

    /** At most four blocks fall at once in IDIOM and at most one otherwise,
        and at most four are clicked. */
    lemma FewBlocks()
      requires Valid()
      ensures |currentBlocks| <= 4 && |idiomClickedBlocks| <= 4
      ensures CharMode(mode) ==> |currentBlocks| <= 1
    {
      DistinctWithin(currentBlocks, roundBlocks);
      DistinctWithin(idiomClickedBlocks, roundBlocks);
    }

    /** The state `spawn_round` leaves in ROTATE/PINYIN, given the used set
        and draw counter it started from. */
    ghost predicate CharSpawned(ds: seq<Entry>, rotate: bool, used0: set<string>, d0: nat)
      requires grid.Valid() && grid.cols > 0
      reads this`currentBlocks, this`currentChar, this`currentPinyin, this`usedChars, this`drawn
      reads currentBlocks
    {
      if ds == [] then
        currentBlocks == [] && currentChar == None && currentPinyin == None
        && usedChars == used0 && drawn == d0
      else
        var p := PickChar(ds, used0, rotate, grid.cols, rand, d0);
        && |currentBlocks| == 1
        && currentBlocks[0].glyph == p.entry.glyph && currentBlocks[0].angle == p.angle
        && currentBlocks[0].x == SidebarW + p.col * grid.cell && currentBlocks[0].y == grid.top
        && currentChar == Some(p.entry.glyph) && currentPinyin == Some(p.entry.pinyin)
        && usedChars == (if p.resetUsed then {} else used0)
        && drawn == p.next
    }

    /** The state `spawn_round` leaves in IDIOM: the target drawn first, its
        characters shuffled (with retries), at most four of them placed on
        sampled columns in ascending order. */
    ghost predicate IdiomSpawned(idioms: seq<string>, d0: nat)
      requires grid.Valid()
      reads this`currentBlocks, this`idiomTarget, this`drawn, currentBlocks
    {
      if idioms == [] then
        currentBlocks == [] && idiomTarget == None && drawn == d0
      else
        IdiomPlaced(DealIdiom(idioms, grid.cols, Sample, rand, d0))
    }

    /** The blocks of an IDIOM round as dealt by `r`: the first four shuffled
        characters, each on its drawn column, at the top. */
    ghost predicate IdiomPlaced(r: IdiomDeal)
      reads this`currentBlocks, this`idiomTarget, this`drawn, currentBlocks
    {
      idiomTarget == Some(r.target) && drawn == r.next && Placed(currentBlocks, r)
    }

    ghost predicate Placed(bs: seq<Block>, r: IdiomDeal)
      reads bs
    {
      && |bs| == Min(|r.chars|, |r.cols|)
      && forall i :: 0 <= i < |bs| ==>
           && bs[i].glyph == [r.chars[i]]
           && bs[i].x == SidebarW + r.cols[i] * grid.cell
           && bs[i].y == grid.top && bs[i].angle == 0
    }

    /** A fresh round with no success pause running. */
    ghost predicate RoundStarted()
      requires Settings()
      reads this, currentBlocks`settled
    {
      RoundReset() && idiomSuccessUntil == 0 && pinyinSuccessUntil == 0
    }

    /** A fresh round: typing and clicking reset, new unsettled blocks, and a
        block placed exactly when the level's dataset has something to draw. */
    ghost predicate RoundReset()
      requires Settings()
      reads this, currentBlocks`settled
    {
      && typed == "" && idiomClickIndex == 0 && idiomClickedBlocks == []
      && (forall b :: b in currentBlocks ==> !b.settled)
      && (CharMode(mode) ==>
            && idiomTarget == None
            && (currentBlocks != [] <==> LevelData(charLevels, level) != [])
            && (currentChar.Some? <==> currentBlocks != []))
      && (mode == Some(Idiom) ==>
            && currentChar == None && currentPinyin == None
            && (idiomTarget.Some? <==> LevelData(idiomLevels, level) != []))
    }

    /** The window with the fourteen character levels and six idiom levels
        the loaders always return; no mode is running. */
    constructor (charLevels: seq<seq<Entry>>, idiomLevels: seq<seq<string>>, rand: nat -> nat)
      requires |charLevels| == 14 && |idiomLevels| == 6
      ensures Valid() && mode == None && score == 0 && level == 1
      ensures rightCount == 0 && targetRight == 1 && currentBlocks == []
      ensures grid.Empty() && grid.cols == 12 && grid.rows == 10
      ensures this.charLevels == charLevels && this.idiomLevels == idiomLevels
    {
      WindowLayout();
      grid := new Grid(SidebarW, 0, Width - SidebarW, Height, Cell);
      this.charLevels := charLevels;
      this.idiomLevels := idiomLevels;
      this.rand := rand;
      drawn := 0;
      mode := None;
      score := 0;
      level := 1;
      rightCount := 0;
      targetRight := 1;
      currentBlocks := [];
      currentChar := None;
      currentPinyin := None;
      typed := "";
      idiomTarget := None;
      idiomClickIndex := 0;
      idiomClickedBlocks := [];
      idiomSuccessUntil := 0;
      pinyinSuccessUntil := 0;
      usedChars := {};
      roundBlocks := [];
    }

    // -------------------------------------------------------------------
    // Session and level

    /** `set_target_right`: the goal of the level is a tenth of its dataset;
        outside ROTATE and PINYIN the idiom dataset is measured. */
    method SetTargetRight()
      modifies this`targetRight
      ensures targetRight == TargetRight(if CharMode(mode) then |LevelData(charLevels, level)|
                                         else |LevelData(idiomLevels, level)|)
    {
      if CharMode(mode) {
        targetRight := TargetRight(|LevelData(charLevels, level)|);
      } else {
        targetRight := TargetRight(|LevelData(idiomLevels, level)|);
      }
    }

    /** `start_mode`: a new session of mode `m` at level 1 with score and
        progress reset, an empty grid, no used characters, and the first
        round spawned. */
    method StartMode(m: Mode)
      requires Valid()
      modifies this, grid.occupied
      ensures Valid() && RoundStarted()
      ensures mode == Some(m) && level == 1 && score == 0 && rightCount == 0
      ensures targetRight == TargetRight(if CharMode(mode) then |LevelData(charLevels, 1)|
                                         else |LevelData(idiomLevels, 1)|)
      ensures grid.Empty() && usedChars == {}
    {
      NewSession(m);
      SetTargetRight();
      grid.Clear();
      usedChars := {};
      SpawnRound();
    }

    method NewSession(m: Mode)
      modifies this`mode, this`level, this`score, this`rightCount
      ensures mode == Some(m) && level == 1 && score == 0 && rightCount == 0
    {
      mode := Some(m);
      level := 1;
      score := 0;
      rightCount := 0;
    }

    /** `next_level`: below the mode's last level, one level up with progress,
        grid and used characters reset and a new round; at the last level
        nothing changes. */
    method NextLevel()
      requires Valid() && mode.Some?
      modifies this, grid.occupied
      ensures Valid() && mode == old(mode) && score == old(score) && Joined()
      ensures level <= MaxLevel(mode)
      ensures old(level) < MaxLevel(mode) ==>
        && level == old(level) + 1 && rightCount == 0 && usedChars == {}
        && grid.Empty() && RoundStarted()
        && targetRight == TargetRight(if CharMode(mode) then |LevelData(charLevels, level)|
                                      else |LevelData(idiomLevels, level)|)
      ensures old(level) >= MaxLevel(mode) ==> unchanged(this) && unchanged(grid.occupied)
    {
      if level < MaxLevel(mode) {
        LevelUp();
        SetTargetRight();
        grid.Clear();
        usedChars := {};
        SpawnRound();
      }
    }

    method LevelUp()
      modifies this`level, this`rightCount
      ensures level == old(level) + 1 && rightCount == 0
    {
      level := level + 1;
      rightCount := 0;
    }

    /** An award at the present counters completes the level and moves on. */
    ghost predicate LevelsUp()
      reads this`rightCount, this`targetRight, this`level, this`mode
    {
      rightCount + 1 >= targetRight && level < MaxLevel(mode)
    }

    /** The counters after `award_points`: the mode's points at the level it
        was called at, and either the next level with its progress reset or
        one more right answer at the same level. */
    twostate predicate Counted()
      reads this
    {
      && mode == old(mode)
      && score == old(score) + Points(mode, old(level))
      && (if old(LevelsUp()) then level == old(level) + 1 && rightCount == 0
          else level == old(level) && rightCount == old(rightCount) + 1)
    }

    /** The effect of `award_points`: the counters move on; then either the
        next level has started (grid and used characters reset, a fresh
        round), or the current character of a ROTATE/PINYIN round is marked
        used and the grid is untouched. */
    twostate predicate Awarded()
      requires Settings()
      reads this, grid.occupied, currentBlocks`settled
    {
      && Counted()
      && (if old(LevelsUp()) then usedChars == {} && grid.Empty() && RoundReset()
          else
            && usedChars == (if CharMode(mode) && Truthy(old(currentChar))
                             then old(usedChars) + {old(currentChar).value} else old(usedChars))
            && unchanged(grid.occupied))
    }

    /** Every block on the field was there before or is new. */
    twostate predicate Joined()
      reads this
    {
      forall b :: b in currentBlocks ==> b in old(currentBlocks) || fresh(b)
    }

    /** Nothing of the round changed. */
    twostate predicate RoundKept()
      reads this
    {
      && currentBlocks == old(currentBlocks) && currentChar == old(currentChar)
      && currentPinyin == old(currentPinyin) && typed == old(typed)
      && idiomTarget == old(idiomTarget) && idiomClickIndex == old(idiomClickIndex)
      && idiomClickedBlocks == old(idiomClickedBlocks)
      && idiomSuccessUntil == old(idiomSuccessUntil) && pinyinSuccessUntil == old(pinyinSuccessUntil)
    }

    /** `award_points` without its effects and sound: the points and the
        right answer are counted, and reaching the level's goal calls
        `next_level`. */
    method AwardPoints()
      requires Valid() && mode.Some?
      modifies this, grid.occupied
      ensures Valid() && Awarded() && Joined()
      ensures old(LevelsUp()) ==> RoundStarted()
      ensures !old(LevelsUp()) ==> RoundKept()
    {
      Tally();
      if rightCount >= targetRight {
        NextLevel();
      }
    }

    /** The counting half of `award_points`. */
    method Tally()
      modifies this`score, this`rightCount, this`usedChars
      ensures score == old(score) + Points(mode, level)
      ensures rightCount == old(rightCount) + 1
      ensures usedChars == if CharMode(mode) && Truthy(currentChar)
                           then old(usedChars) + {currentChar.value} else old(usedChars)
    {
      score := score + Points(mode, level);
      rightCount := rightCount + 1;
      if CharMode(mode) && Truthy(currentChar) {
        usedChars := usedChars + {currentChar.value};
      }
    }

    // -------------------------------------------------------------------
    // Keys

    /** The x a block at (x, y) ends at after a sideways move by `dx`: moved
        where the grid accepts the square there, unmoved otherwise. */
    ghost function Shift(x: int, y: int, size: int, dx: int): int
      requires grid.Valid()
      reads grid.occupied
    {
      if grid.Accepts(Rect(x + dx, y, size, size)) then x + dx else x
    }

    /** The movement half of `on_key`: in ROTATE and PINYIN with a block
        falling, Space (in ROTATE) turns it a quarter and the left and right
        arrows move it one cell where the grid accepts it. */
    method Steer(key: int)
      requires Valid()
      modifies currentBlocks`x, currentBlocks`angle
      ensures Valid()
      ensures CharMode(mode) && currentBlocks != [] ==>
        var b := currentBlocks[0];
        && b.angle == (if key == KeySpace && mode == Some(Rotate) then Turn(old(b.angle)) else old(b.angle))
        && b.x == (if key == KeySpace && mode == Some(Rotate) then old(b.x)
                   else if key == KeyLeft then Shift(old(b.x), b.y, b.size, -grid.cell)
                   else if key == KeyRight then Shift(old(b.x), b.y, b.size, grid.cell)
                   else old(b.x))
      ensures !(CharMode(mode) && currentBlocks != []) ==> unchanged(currentBlocks)
    {
      if CharMode(mode) && currentBlocks != [] {
        FewBlocks();
        var blk := currentBlocks[0];
        assert currentBlocks == [blk] && BlockOk(blk);
        if key == KeySpace && mode == Some(Rotate) {
          blk.angle := Turn(blk.angle);
        } else if key == KeyLeft {
          grid.ShiftIfFree(blk, -grid.cell);
        } else if key == KeyRight {
          grid.ShiftIfFree(blk, grid.cell);
        }
        assert BlockOk(blk);
      }
    }

    /** A key event that completes the answer: in PINYIN with a pinyin
        showing, any code up to 127 except Backspace leaves the typed answer
        equal to the normalised pinyin. */
    ghost predicate Answers(key: int, u: string)
      reads this`mode, this`typed, this`currentPinyin
    {
      && mode == Some(Pinyin) && Truthy(currentPinyin) && key != KeyBackspace && key <= 127
      && ToneMarks.StripToneMarks(currentPinyin.value) == TypeEvent(typed, key, u)
    }

    /** `on_key` for a key with code `key` and text `u`: the falling block is
        steered, and in PINYIN the key edits the answer; a key up to 127
        that leaves the answer complete scores (again, if it already was) and
        starts the one-second success pause. */
    method OnKey(key: int, u: string, now: int)
      requires Valid()
      modifies this, grid.occupied, currentBlocks`x, currentBlocks`angle
      ensures Valid() && level >= old(level)
      ensures old(CharMode(mode) && currentBlocks != []) ==>
        var b := old(currentBlocks)[0];
        && b.angle == (if key == KeySpace && old(mode) == Some(Rotate) then Turn(old(b.angle)) else old(b.angle))
        && b.x == (if key == KeySpace && old(mode) == Some(Rotate) then old(b.x)
                   else if key == KeyLeft then old(Shift(b.x, b.y, b.size, -grid.cell))
                   else if key == KeyRight then old(Shift(b.x, b.y, b.size, grid.cell))
                   else old(b.x))
      ensures old(Answers(key, u)) ==> Awarded() && pinyinSuccessUntil == now + 1000
      ensures old(Answers(key, u)) && !old(LevelsUp()) ==> typed == TypeEvent(old(typed), key, u)
      ensures !old(Answers(key, u)) ==>
        && score == old(score) && rightCount == old(rightCount) && level == old(level)
        && usedChars == old(usedChars) && pinyinSuccessUntil == old(pinyinSuccessUntil)
        && typed == (if old(mode) == Some(Pinyin) && Truthy(old(currentPinyin))
                     then TypeEvent(old(typed), key, u) else old(typed))
    {
      Steer(key);
      if mode == Some(Pinyin) && Truthy(currentPinyin) {
        TypeAnswer(key, u, now);
      }
    }

    /** The PINYIN half of `on_key`. */
    method TypeAnswer(key: int, u: string, now: int)
      requires Valid() && mode == Some(Pinyin) && Truthy(currentPinyin)
      modifies this, grid.occupied
      ensures Valid() && level >= old(level)
      ensures old(Answers(key, u)) ==> Awarded() && pinyinSuccessUntil == now + 1000
      ensures old(Answers(key, u)) && !old(LevelsUp()) ==> typed == TypeEvent(old(typed), key, u)
      ensures !old(Answers(key, u)) ==>
        && score == old(score) && rightCount == old(rightCount) && level == old(level)
        && usedChars == old(usedChars) && pinyinSuccessUntil == old(pinyinSuccessUntil)
        && typed == TypeEvent(old(typed), key, u)
    {
      if key == KeyBackspace {
        typed := TypeEvent(typed, key, u);
      } else if key <= 127 {
        typed := TypeEvent(typed, key, u);
        CheckAnswer(now);
      }
    }

    /** The answer check: the normalised pinyin typed scores and starts the
        success pause. */
    method CheckAnswer(now: int)
      requires Valid() && mode == Some(Pinyin) && Truthy(currentPinyin)
      modifies this, grid.occupied
      ensures Valid() && level >= old(level)
      ensures old(ToneMarks.StripToneMarks(currentPinyin.value) == typed) ==>
        Awarded() && pinyinSuccessUntil == now + 1000
      ensures old(ToneMarks.StripToneMarks(currentPinyin.value) == typed && !LevelsUp()) ==>
        typed == old(typed)
      ensures old(ToneMarks.StripToneMarks(currentPinyin.value) != typed) ==> unchanged(this)
    {
      if ToneMarks.StripToneMarks(currentPinyin.value) == typed {
        AwardPoints();
        pinyinSuccessUntil := now + 1000;
      }
    }

    // -------------------------------------------------------------------
    // Idiom clicks

    /** Clicks are taken in IDIOM while an idiom is showing, its characters
        are not all clicked and no success pause is running. */
    ghost predicate ClickOpen()
      reads this`mode, this`idiomTarget, this`idiomClickIndex, this`idiomSuccessUntil
    {
      && mode == Some(Idiom) && Truthy(idiomTarget)
      && idiomClickIndex < |idiomTarget.value| && !(idiomSuccessUntil > 0)
    }

    /** A block a click at (px, py) can pick: still falling, not clicked yet,
        and under the point (pygame's half-open `collidepoint`). */
    ghost predicate Pickable(b: Block, px: int, py: int)
      reads this`idiomClickedBlocks, b`settled, b`x, b`y
    {
      !b.settled && b !in idiomClickedBlocks && Rect(b.x, b.y, b.size, b.size).Contains(px, py)
    }

    /** The first pickable block at or after index k of the field. */
    ghost function FirstPickable(px: int, py: int, k: nat): (r: Option<nat>)
      requires k <= |currentBlocks|
      reads this`currentBlocks, this`idiomClickedBlocks
      reads currentBlocks`settled, currentBlocks`x, currentBlocks`y
      ensures r.Some? ==> k <= r.value < |currentBlocks| && Pickable(currentBlocks[r.value], px, py)
      ensures r.Some? ==> forall j :: k <= j < r.value ==> !Pickable(currentBlocks[j], px, py)
      ensures r.None? ==> forall j :: k <= j < |currentBlocks| ==> !Pickable(currentBlocks[j], px, py)
      decreases |currentBlocks| - k
    {
      if k == |currentBlocks| then None
      else if Pickable(currentBlocks[k], px, py) then Some(k)
      else FirstPickable(px, py, k + 1)
    }

    /** The search of `on_mouse` through the falling blocks. */
    method FirstHit(px: int, py: int) returns (hit: Option<nat>)
      ensures hit == FirstPickable(px, py, 0)
    {
      var i := 0;
      while i < |currentBlocks|
        invariant 0 <= i <= |currentBlocks|
        invariant FirstPickable(px, py, 0) == FirstPickable(px, py, i)
      {
        var blk := currentBlocks[i];
        if !blk.settled && blk !in idiomClickedBlocks {
          if Rect(blk.x, blk.y, blk.size, blk.size).Contains(px, py) {
            return Some(i);
          }
        }
        i := i + 1;
      }
      return None;
    }

    /** The check made once the last character is clicked: as many blocks as
        characters, each carrying its character. */
    method RecheckClicks() returns (allCorrect: bool)
      requires idiomTarget.Some?
      ensures allCorrect <==>
        && |idiomClickedBlocks| == |idiomTarget.value|
        && forall i :: 0 <= i < |idiomClickedBlocks| ==>
             idiomClickedBlocks[i].glyph == [idiomTarget.value[i]]
    {
      var target := idiomTarget.value;
      if |idiomClickedBlocks| != |target| {
        return false;
      }
      var i := 0;
      while i < |idiomClickedBlocks|
        invariant 0 <= i <= |idiomClickedBlocks|
        invariant forall j :: 0 <= j < i ==> idiomClickedBlocks[j].glyph == [target[j]]
      {
        if idiomClickedBlocks[i].glyph != [target[i]] {
          return false;
        }
        i := i + 1;
      }
      return true;
    }

    /** Where the completed idiom's first block goes: centred in the playfield. */
    function GroupX(n: int, size: int): int {
      grid.left + grid.width / 2 - (n * size) / 2
    }

    /** `bs` shown as a settled row one cell below the top, in order. */
    ghost predicate InRow(bs: seq<Block>)
      reads bs
    {
      forall i :: 0 <= i < |bs| ==>
        && bs[i].settled
        && bs[i].x == GroupX(|bs|, grid.cell) + i * grid.cell
        && bs[i].y == grid.top + grid.cell
    }

    /** The layout of a completed idiom, which keeps every block on the field
        within the walls. */
    method LayOut(size: int)
      requires Valid() && size == grid.cell
      modifies idiomClickedBlocks`settled, idiomClickedBlocks`x, idiomClickedBlocks`y
      ensures Valid() && InRow(idiomClickedBlocks)
      ensures unchanged(this) && unchanged(grid.occupied)
    {
      FewBlocks();
      Arrange(size);
      forall b | b in currentBlocks
        ensures BlockOk(b)
      {
        if b in idiomClickedBlocks {
          assert b in roundBlocks;
        }
      }
    }

    method Arrange(size: int)
      requires Settings() && Distinct(idiomClickedBlocks) && |idiomClickedBlocks| <= 4
      requires size == grid.cell
      modifies idiomClickedBlocks`settled, idiomClickedBlocks`x, idiomClickedBlocks`y
      ensures InRow(idiomClickedBlocks)
      ensures forall b :: b in idiomClickedBlocks ==>
        && grid.left <= b.x && b.x + size <= grid.left + grid.width
        && grid.top <= b.y && b.y + size <= grid.top + grid.height
    {
      var n := |idiomClickedBlocks|;
      SettleClicked();
      PlaceClicked(GroupX(n, size), grid.top + grid.cell, size);
      FourFit(grid.width, grid.cell, n);
      grid.RowInside(1);
      forall b | b in idiomClickedBlocks
        ensures grid.left <= b.x && b.x + size <= grid.left + grid.width
      {
        var j :| 0 <= j < n && idiomClickedBlocks[j] == b;
        RowCentred(grid.left, grid.width, n, size, j);
      }
    }

    /** Every clicked block is marked settled. */
    method SettleClicked()
      modifies idiomClickedBlocks`settled
      ensures forall j :: 0 <= j < |idiomClickedBlocks| ==> idiomClickedBlocks[j].settled
    {
      var i := 0;
      while i < |idiomClickedBlocks|
        invariant 0 <= i <= |idiomClickedBlocks|
        invariant forall j :: 0 <= j < i ==> idiomClickedBlocks[j].settled
      {
        idiomClickedBlocks[i].settled := true;
        i := i + 1;
      }
    }

    /** The clicked blocks are put side by side in click order, the first at
        `(x0, y0)`. */
    method PlaceClicked(x0: int, y0: int, size: int)
      requires Distinct(idiomClickedBlocks)
      modifies idiomClickedBlocks`x, idiomClickedBlocks`y
      ensures forall j :: 0 <= j < |idiomClickedBlocks| ==>
        idiomClickedBlocks[j].x == x0 + j * size && idiomClickedBlocks[j].y == y0
    {
      var i := 0;
      while i < |idiomClickedBlocks|
        invariant 0 <= i <= |idiomClickedBlocks|
        invariant forall j :: 0 <= j < i ==>
          idiomClickedBlocks[j].x == x0 + j * size && idiomClickedBlocks[j].y == y0
      {
        idiomClickedBlocks[i].x := x0 + i * size;
        idiomClickedBlocks[i].y := y0;
        i := i + 1;
      }
    }

    /** A wrong click: the clicked blocks still on the field fall again, and
        the sequence starts over. */
    method Release()
      modifies this`idiomClickedBlocks, this`idiomClickIndex, idiomClickedBlocks`settled
      ensures idiomClickedBlocks == [] && idiomClickIndex == 0
      ensures Released(old(idiomClickedBlocks))
    {
      var clicked := idiomClickedBlocks;
      var i := 0;
      while i < |clicked|
        invariant 0 <= i <= |clicked|
        invariant forall j :: 0 <= j < i && clicked[j] in currentBlocks ==> !clicked[j].settled
        invariant forall b :: b in clicked && b !in currentBlocks ==> b.settled == old(b.settled)
      {
        var b := clicked[i];
        if b in currentBlocks {
          b.settled := false;
        }
        i := i + 1;
      }
      idiomClickedBlocks := [];
      idiomClickIndex := 0;
    }

    /** The blocks of `was` still on the field are falling again; the others
        keep their settled flag. */
    twostate predicate Released(was: seq<Block>)
      reads this`currentBlocks, was`settled
    {
      forall b :: b in was ==> b.settled == (if b in currentBlocks then false else old(b.settled))
    }

    /** A click picked `blk` while `was` were clicked: the right character
        extends the sequence and, when the idiom is complete, lays it out,
        awards the points and starts the success pause; a wrong one releases
        the sequence. */
    twostate predicate ClickHandled(blk: Block, expected: char, was: seq<Block>, now: int)
      requires Settings()
      reads this, grid.occupied, currentBlocks`settled, was, blk
    {
      if blk.glyph == [expected] then
        if old(idiomTarget).Some? && |was| + 1 == |old(idiomTarget).value| then
          && InRow(was + [blk]) && Awarded() && idiomSuccessUntil == now + 1000
        else
          && idiomClickedBlocks == was + [blk] && idiomClickIndex == old(idiomClickIndex) + 1
          && score == old(score) && rightCount == old(rightCount) && level == old(level)
          && idiomSuccessUntil == old(idiomSuccessUntil)
      else
        && idiomClickedBlocks == [] && idiomClickIndex == 0
        && score == old(score) && rightCount == old(rightCount) && level == old(level)
        && idiomSuccessUntil == old(idiomSuccessUntil)
        && Released(was)
    }

    method Pick(blk: Block, now: int)
      requires Valid() && ClickOpen() && blk in currentBlocks
      requires !blk.settled && blk !in idiomClickedBlocks
      modifies this, grid.occupied
      modifies currentBlocks`settled, currentBlocks`x, currentBlocks`y
      modifies idiomClickedBlocks`settled, idiomClickedBlocks`x, idiomClickedBlocks`y
      ensures Valid() && level >= old(level)
      ensures ClickHandled(blk, old(idiomTarget.value[idiomClickIndex]), old(idiomClickedBlocks), now)
    {
      var expected := idiomTarget.value[idiomClickIndex];
      if blk.glyph == [expected] {
        Advance(blk, now);
      } else {
        Release();
      }
    }

    /** The right character clicked: it joins the sequence, and a complete
        sequence is laid out and scored. */
    method Advance(blk: Block, now: int)
      requires Valid() && ClickOpen() && blk in currentBlocks
      requires blk !in idiomClickedBlocks && blk.glyph == [idiomTarget.value[idiomClickIndex]]
      modifies this, grid.occupied
      modifies currentBlocks`settled, currentBlocks`x, currentBlocks`y
      modifies idiomClickedBlocks`settled, idiomClickedBlocks`x, idiomClickedBlocks`y
      ensures Valid() && level >= old(level)
      ensures old(idiomClickIndex) + 1 == |old(idiomTarget).value| ==>
        && InRow(old(idiomClickedBlocks) + [blk]) && Awarded() && idiomSuccessUntil == now + 1000
      ensures old(idiomClickIndex) + 1 < |old(idiomTarget).value| ==>
        && idiomClickedBlocks == old(idiomClickedBlocks) + [blk]
        && idiomClickIndex == old(idiomClickIndex) + 1
        && score == old(score) && rightCount == old(rightCount) && level == old(level)
        && idiomSuccessUntil == old(idiomSuccessUntil)
    {
      idiomClickedBlocks := idiomClickedBlocks + [blk];
      idiomClickIndex := idiomClickIndex + 1;
      if idiomClickIndex >= |idiomTarget.value| {
        Complete(blk.size, now);
      }
    }

    /** The last character clicked: the recheck of the whole sequence always
        passes here, so the completed idiom is laid out, then the points are
        awarded (which may start the next level) and the success pause
        starts. */
    method Complete(size: int, now: int)
      requires Valid() && mode == Some(Idiom) && idiomTarget.Some? && size == grid.cell
      requires idiomClickIndex >= |idiomTarget.value|
      modifies this, grid.occupied
      modifies idiomClickedBlocks`settled, idiomClickedBlocks`x, idiomClickedBlocks`y
      ensures Valid() && InRow(old(idiomClickedBlocks)) && level >= old(level)
      ensures Awarded() && idiomSuccessUntil == now + 1000
    {
      var allCorrect := RecheckClicks();
      if allCorrect {
        ghost var clicked := idiomClickedBlocks;
        LayOut(size);
        assert InRow(clicked);
        Reward(now);
        assert InRow(clicked);
      } else {
        assert false;
      }
    }

    /** The award of a completed idiom and the start of its success pause;
        the laid-out blocks keep their places. */
    method Reward(now: int)
      requires Valid() && mode == Some(Idiom)
      modifies this, grid.occupied
      ensures Valid() && Awarded() && idiomSuccessUntil == now + 1000
    {
      AwardPoints();
      idiomSuccessUntil := now + 1000;
    }

    /** `on_mouse` for a press at (px, py), with `button` the mode button
        under the point, if any: a button starts its mode; otherwise the
        press is an IDIOM click. */
    method OnMouse(button: Option<Mode>, px: int, py: int, now: int)
      requires Valid()
      modifies this, grid.occupied
      modifies currentBlocks`settled, currentBlocks`x, currentBlocks`y
      modifies idiomClickedBlocks`settled, idiomClickedBlocks`x, idiomClickedBlocks`y
      ensures Valid()
      ensures button.Some? ==>
        && mode == button && level == 1 && score == 0 && rightCount == 0
        && grid.Empty() && usedChars == {} && RoundStarted()
      ensures button.None? && (!old(ClickOpen()) || old(FirstPickable(px, py, 0)).None?) ==>
        unchanged(this) && unchanged(grid.occupied) && unchanged(currentBlocks)
        && unchanged(old(idiomClickedBlocks))
      ensures button.None? && old(ClickOpen()) && old(FirstPickable(px, py, 0)).Some? ==>
        ClickHandled(old(currentBlocks[FirstPickable(px, py, 0).value]),
                     old(idiomTarget.value[idiomClickIndex]), old(idiomClickedBlocks), now)
    {
      if button.Some? {
        StartMode(button.value);
        return;
      }
      Click(px, py, now);
    }

    /** The IDIOM branch of `on_mouse`: outside an open IDIOM round, or away
        from every pickable block, nothing changes; otherwise the first
        pickable block under the point is taken. */
    method Click(px: int, py: int, now: int)
      requires Valid()
      modifies this, grid.occupied
      modifies currentBlocks`settled, currentBlocks`x, currentBlocks`y
      modifies idiomClickedBlocks`settled, idiomClickedBlocks`x, idiomClickedBlocks`y
      ensures Valid() && level >= old(level)
      ensures !old(ClickOpen()) || old(FirstPickable(px, py, 0)).None? ==>
        unchanged(this) && unchanged(grid.occupied) && unchanged(currentBlocks)
        && unchanged(old(idiomClickedBlocks))
      ensures old(ClickOpen()) && old(FirstPickable(px, py, 0)).Some? ==>
        ClickHandled(old(currentBlocks[FirstPickable(px, py, 0).value]),
                     old(idiomTarget.value[idiomClickIndex]), old(idiomClickedBlocks), now)
    {
      if mode != Some(Idiom) || !Truthy(idiomTarget) {
        return;
      }
      if idiomClickIndex >= |idiomTarget.value| || idiomSuccessUntil > 0 {
        return;
      }
      var hit := FirstHit(px, py);
      if hit.Some? {
        Pick(currentBlocks[hit.value], now);
      }
    }

    // -------------------------------------------------------------------
    // The frame update

    /** Where `update` puts a falling block at (x, y) this frame, and whether
        it lands there: on the floor when its bottom is there or the step
        would take it there; on top of the row below its bottom edge when
        that row holds a glyph under it; `step` lower when the grid accepts
        that square; otherwise snapped up to the top of its own row.
        Wherever it ends, it stays inside the playfield. */
    ghost function Drop(x: int, y: int, size: int, step: int): (r: (bool, int))
      requires grid.Valid() && grid.rows >= 1 && size == grid.cell && step >= 0
      requires grid.top <= y && y + size <= grid.top + grid.height
      reads grid.occupied
      ensures grid.top <= r.1 && r.1 + size <= grid.top + grid.height
    {
      var maxBottom := grid.top + grid.height;
      if y + size >= maxBottom || y + step + size >= maxBottom then (true, maxBottom - size)
      else DropAbove(x, y, size, step)
    }

    /** `Drop` for a block whose step stays above the floor. */
    ghost function DropAbove(x: int, y: int, size: int, step: int): (r: (bool, int))
      requires grid.Valid() && grid.rows >= 1 && size == grid.cell && step >= 0
      requires grid.top <= y && y + step + size < grid.top + grid.height
      reads grid.occupied
      ensures grid.top <= r.1 && r.1 + size <= grid.top + grid.height
    {
      var row := (y + size - grid.top) / grid.cell;
      var rc := Rect(x, y, size, size);
      if row < grid.rows - 1 && grid.RowBlocked(row + 1, grid.FirstCol(rc), grid.LastCol(rc)) then
        RowBelowInside(row);
        (true, grid.top + (row + 1) * grid.cell - size)
      else if grid.Accepts(Rect(x, y + step, size, size)) then (false, y + step)
      else
        grid.RowInside(grid.SettleRow(y));
        (true, grid.top + grid.SettleRow(y) * grid.cell)
    }

    /** A cell resting on row `row + 1` lies inside the playfield. */
    lemma RowBelowInside(row: int)
      requires grid.Valid() && 0 <= row && row + 1 < grid.rows
      ensures grid.top <= grid.top + (row + 1) * grid.cell - grid.cell
      ensures grid.top + (row + 1) * grid.cell <= grid.top + grid.height
    {
      grid.RowInside(row + 1);
      MulMonotone(1, row + 1, grid.cell);
    }

    /** A block that does not land has moved exactly one step and still ends
        above the floor: the floor test lands it one step early. */
    lemma FallStaysAboveFloor(x: int, y: int, size: int, step: int)
      requires grid.Valid() && grid.rows >= 1 && size == grid.cell && step >= 0
      requires grid.top <= y && y + size <= grid.top + grid.height
      ensures !Drop(x, y, size, step).0 ==>
        Drop(x, y, size, step).1 == y + step && y + step + size < grid.top + grid.height
    {
    }

    /** The position step of `update` for one unsettled block. */
    method NextY(blk: Block, step: int) returns (landed: bool, y': int)
      requires Settings() && BlockOk(blk) && step >= 0
      ensures (landed, y') == Drop(blk.x, blk.y, blk.size, step)
    {
      var bottom := blk.y + blk.size;
      var maxBottom := grid.top + grid.height;
      if bottom >= maxBottom || blk.y + step + blk.size >= maxBottom {
        return true, maxBottom - blk.size;
      }
      var c0 := Max(0, (blk.x - grid.left) / grid.cell);
      var c1 := Min(grid.cols - 1, (blk.x + blk.size - 1 - grid.left) / grid.cell);
      var row := (bottom - grid.top) / grid.cell;
      if row < grid.rows - 1 {
        var blocked := grid.ScanRow(row + 1, c0, c1);
        if blocked {
          return true, grid.top + (row + 1) * grid.cell - blk.size;
        }
      }
      var ok := grid.CanMove(Rect(blk.x, blk.y + step, blk.size, blk.size));
      if ok {
        return false, blk.y + step;
      }
      return true, grid.top + grid.SettleRow(blk.y) * grid.cell;
    }

    /** A block that lands in ROTATE at a whole number of turns scores. */
    ghost predicate Upright(blk: Block)
      reads this`mode, blk`angle
    {
      mode == Some(Rotate) && blk.angle % 360 == 0
    }

    /** The grid gained `blk`'s glyph in the cell of its top-left corner and
        nothing else changed. */
    twostate predicate SettledInGrid(blk: Block)
      requires grid.Valid() && grid.rows >= 1 && grid.cols >= 1
      reads grid.occupied, blk`x, blk`y
    {
      grid.Cells() == old(grid.Cells())[(grid.SettleRow(blk.y), grid.SettleCol(blk.x)) := Some(blk.glyph)]
    }

    /** The game as `blk` finds it just before it comes to rest. */
    ghost function BeforeLanding(blk: Block): Before
      requires Settings()
      reads this, grid.occupied, blk`angle
    {
      Before(score, level, mode, LevelsUp(), Upright(blk), grid.Cells())
    }

    /** What a block coming to rest did to the score and level of the game
        `w` it found: the right way up in ROTATE it scored the points of
        `award_points`, with the next level once that reached the goal; any
        other block scored nothing. */
    ghost predicate ScoredFrom(w: Before)
      reads this`score, this`level
    {
      if w.upright then
        && score == w.score + Points(w.mode, w.level)
        && level == (if w.levelsUp then w.level + 1 else w.level)
      else score == w.score && level == w.level
    }

    /** What `blk` coming to rest did to the grid `w.cells` it found: the
        right way up in ROTATE it left the grid alone, unless its award
        started the next level and so emptied it; any other block wrote its
        glyph into the cell of its top-left corner. */
    ghost predicate WroteFrom(blk: Block, w: Before)
      requires grid.Valid() && grid.rows >= 1 && grid.cols >= 1
      reads grid.occupied, blk`x, blk`y
    {
      if w.upright then (if w.levelsUp then grid.Empty() else grid.Cells() == w.cells)
      else grid.Cells() == w.cells[(grid.SettleRow(blk.y), grid.SettleCol(blk.x)) := Some(blk.glyph)]
    }

    /** A block comes to rest.  An upright ROTATE block scores (possibly
        starting the next level) and a new round starts, the grid gaining
        nothing; any other block is written into the grid and leaves the
        field, and a new round starts in ROTATE and PINYIN, or in IDIOM once
        no block is left. */
    method Land(blk: Block)
      requires Valid() && mode.Some? && blk in currentBlocks
      modifies this, grid.occupied, blk`settled
      ensures Valid() && blk.settled && mode == old(mode)
      ensures level >= old(level) && score >= old(score)
      ensures Joined()
      ensures old(Upright(blk)) ==>
        && Counted() && RoundStarted() && (forall b :: b in currentBlocks ==> fresh(b))
        && if old(LevelsUp()) then grid.Empty() else unchanged(grid.occupied)
      ensures !old(Upright(blk)) ==>
        && score == old(score) && rightCount == old(rightCount) && level == old(level)
        && SettledInGrid(blk)
      ensures !old(Upright(blk)) && (CharMode(mode) || Without(old(currentBlocks), blk) == []) ==>
        RoundStarted() && forall b :: b in currentBlocks ==> fresh(b)
      ensures !old(Upright(blk)) && !(CharMode(mode) || Without(old(currentBlocks), blk) == []) ==>
        && currentBlocks == Without(old(currentBlocks), blk)
        && idiomClickedBlocks == old(idiomClickedBlocks) && idiomTarget == old(idiomTarget)
        && idiomSuccessUntil == old(idiomSuccessUntil)
    {
      blk.settled := true;
      if mode == Some(Rotate) && blk.angle % 360 == 0 {
        ScoreUpright();
      } else {
        Bury(blk);
      }
    }

    /** The upright ROTATE block scores, and the next round starts. */
    method ScoreUpright()
      requires Valid() && mode == Some(Rotate)
      modifies this, grid.occupied
      ensures Valid() && Counted() && RoundStarted() && Joined()
      ensures forall b :: b in currentBlocks ==> fresh(b)
      ensures if old(LevelsUp()) then grid.Empty() else unchanged(grid.occupied)
    {
      AwardPoints();
      currentBlocks := [];
      SpawnRound();
    }

    /** Any other landing block is written into the grid and leaves the field. */
    method Bury(blk: Block)
      requires Valid() && mode.Some? && blk in currentBlocks
      modifies this, grid.occupied
      ensures Valid() && mode == old(mode) && level == old(level)
      ensures score == old(score) && rightCount == old(rightCount) && SettledInGrid(blk)
      ensures Joined()
      ensures CharMode(mode) || Without(old(currentBlocks), blk) == [] ==>
        RoundStarted() && forall b :: b in currentBlocks ==> fresh(b)
      ensures !(CharMode(mode) || Without(old(currentBlocks), blk) == []) ==>
        && currentBlocks == Without(old(currentBlocks), blk)
        && idiomClickedBlocks == old(idiomClickedBlocks) && idiomTarget == old(idiomTarget)
        && idiomSuccessUntil == old(idiomSuccessUntil)
    {
      grid.Settle(blk);
      WithoutFacts(currentBlocks, blk);
      FewBlocks();
      currentBlocks := Without(currentBlocks, blk);
      if CharMode(mode) || currentBlocks == [] {
        SpawnRound();
      }
    }

    /** One block's turn in the frame loop: a settled block is skipped; a
        falling one moves to where `Drop` puts it and lands there if `Drop`
        says so. */
    method StepBlock(blk: Block, step: int)
      requires Valid() && blk in currentBlocks && step >= 0
      modifies this, grid.occupied, blk`y, blk`settled
      ensures Valid() && mode == old(mode) && level >= old(level) && score >= old(score)
      ensures Joined()
      ensures old(blk.settled) ==> unchanged(this) && unchanged(grid.occupied) && unchanged(blk)
      ensures !old(blk.settled) ==> blk.y == old(Drop(blk.x, blk.y, blk.size, step)).1
      ensures !old(blk.settled) ==> blk.settled == old(Drop(blk.x, blk.y, blk.size, step)).0
      ensures !old(blk.settled) && !old(Drop(blk.x, blk.y, blk.size, step)).0 ==>
        unchanged(this) && unchanged(grid.occupied)
      ensures Stepped(blk, step)
      ensures !Landed(blk) ==> currentBlocks == old(currentBlocks)
      ensures Landed(blk) ==>
        if CharMode(mode) || Without(old(currentBlocks), blk) == [] then forall b :: b in currentBlocks ==> fresh(b)
        else currentBlocks == Without(old(currentBlocks), blk)
      ensures Landed(blk) ==> ScoredFrom(old(BeforeLanding(blk))) && WroteFrom(blk, old(BeforeLanding(blk)))
      ensures mode != Some(Rotate) ==> score == old(score) && level == old(level)
    {
      if blk.settled {
        return;
      }
      // The IDIOM skip of a completed click sequence needs every clicked
      // block settled, this one among them, so it never applies here.
      if mode == Some(Idiom) && blk in idiomClickedBlocks &&
         idiomClickIndex >= |idiomTarget.value| &&
         (forall b :: b in idiomClickedBlocks ==> b.settled) {
        assert false;
      }
      var landed, y' := NextY(blk, step);
      blk.y := y';
      if landed {
        Land(blk);
      }
    }

    /** Where `Drop` puts each of the blocks `bs`, on the grid as it stands. */
    ghost function DropsOf(bs: seq<Block>, step: int): (r: seq<(bool, int)>)
      requires Settings() && step >= 0 && forall j :: 0 <= j < |bs| ==> BlockOk(bs[j])
      reads this`level, this`mode, grid.occupied, bs
      ensures |r| == |bs|
      ensures forall j :: 0 <= j < |bs| ==> BlockOk(bs[j]) && r[j] == Drop(bs[j].x, bs[j].y, bs[j].size, step)
    {
      if bs == [] then [] else assert BlockOk(bs[0]); [Drop(bs[0].x, bs[0].y, bs[0].size, step)] + DropsOf(bs[1..], step)
    }

    /** Each block of `s` from `k` on, stepped now, would move as `d` says. */
    ghost predicate DropsAhead(s: seq<Block>, d: seq<(bool, int)>, step: int, k: nat)
      reads this`level, this`mode, grid.occupied, s
    {
      && Settings() && step >= 0 && k <= |s| == |d|
      && forall j :: k <= j < |s| ==> BlockOk(s[j]) && d[j] == Drop(s[j].x, s[j].y, s[j].size, step)
    }

    /** The frame loop at position `i` of the live list, over the blocks
        `s` of the frame's start, in a game whose mode, score and level were
        `m`, `sc` and `lv` and whose grid held `cells` when the frame began:
        the loop's bookkeeping `t` and the blocks' places `p` stand as
        `Tracks` says; while no block has landed the live list, score, level
        and grid are as they were, and outside ROTATE the score and level
        always are. */
    ghost predicate Turning(s: seq<Block>, p0: seq<(int, int, bool)>, d: seq<(bool, int)>, step: int,
                            i: nat, t: Pass, p: seq<(int, int, bool)>, m: Option<Mode>, sc: int, lv: int,
                            cells: map<(int, int), Option<string>>)
      reads this, grid.occupied, s, currentBlocks
    {
      var ok :=
        && Valid() && step >= 0 && Distinct(s) && i <= 4
        && mode == m && level >= lv && score >= sc
        && p == Places(s) && Tracks(s, p0, p, d, step, currentBlocks, i, t)
        && (t.first == t.k ==> score == sc && level == lv && currentBlocks == s && grid.Cells() == cells)
        && (!t.renewed && t.first == t.k ==> DropsAhead(s, d, step, t.k))
        && (mode != Some(Rotate) ==> score == sc && level == lv);
      ok
    }

    /** The frame loop starts at the head of the live list, with nothing
        moved. */
    lemma TurningStart(s: seq<Block>, p0: seq<(int, int, bool)>, d: seq<(bool, int)>, step: int)
      requires Valid() && step >= 0 && s == currentBlocks && p0 == Places(s) && DropsAhead(s, d, step, 0)
      ensures Turning(s, p0, d, step, 0, Pass(0, [], false, 0), p0, mode, score, level, grid.Cells())
    {
      TracksStart(s, p0, d, step);
    }

    /** Once the frame loop has run off the end of the live list, every
        block of `s` has had its turn. */
    lemma TurningDone(s: seq<Block>, p0: seq<(int, int, bool)>, d: seq<(bool, int)>, step: int,
                      i: nat, t: Pass, p: seq<(int, int, bool)>, m: Option<Mode>, sc: int, lv: int,
                      cells: map<(int, int), Option<string>>)
      requires Turning(s, p0, d, step, i, t, p, m, sc, lv, cells) && i >= |currentBlocks|
      ensures Progress(p0, Places(s), d, step, |s|, t.first)
      ensures t.first == |s| ==> score == sc && level == lv && currentBlocks == s && grid.Cells() == cells
    {
      TracksDone(s, currentBlocks, i, t);
    }

    /** `StepBlock` seen from the live list `s` as the frame began: of the
        places of the blocks of `s`, only that of `blk` (at `k`) changes. */
    method StepInList(ghost s: seq<Block>, ghost d: seq<(bool, int)>, ghost k: nat, blk: Block, step: int)
      requires Valid() && blk in currentBlocks && step >= 0 && Distinct(s)
      requires blk in s ==> 0 <= k < |s| && blk == s[k]
      modifies this, grid.occupied, blk`y, blk`settled
      ensures Valid() && mode == old(mode) && level >= old(level) && score >= old(score)
      ensures Joined()
      ensures old(blk.settled) ==> unchanged(this) && unchanged(grid.occupied) && unchanged(blk)
      ensures !old(blk.settled) ==> blk.y == old(Drop(blk.x, blk.y, blk.size, step)).1
      ensures !old(blk.settled) ==> blk.settled == old(Drop(blk.x, blk.y, blk.size, step)).0
      ensures !old(blk.settled) && !old(Drop(blk.x, blk.y, blk.size, step)).0 ==>
        unchanged(this) && unchanged(grid.occupied)
      ensures Stepped(blk, step)
      ensures !Landed(blk) ==> currentBlocks == old(currentBlocks)
      ensures !Landed(blk) ==> score == old(score) && level == old(level) && grid.Cells() == old(grid.Cells())
      ensures Landed(blk) ==>
        if CharMode(mode) || Without(old(currentBlocks), blk) == [] then forall b :: b in currentBlocks ==> fresh(b) && b !in s
        else currentBlocks == Without(old(currentBlocks), blk)
      ensures Places(s) == if blk in s then old(Places(s))[k := (blk.x, blk.y, blk.settled)] else old(Places(s))
      ensures !Landed(blk) && old(DropsAhead(s, d, step, k + 1)) ==> DropsAhead(s, d, step, k + 1)
      ensures blk.x == old(blk.x)
      ensures Landed(blk) ==> ScoredFrom(old(BeforeLanding(blk))) && WroteFrom(blk, old(BeforeLanding(blk)))
      ensures mode != Some(Rotate) ==> score == old(score) && level == old(level)
    {
      ghost var p := Places(s);
      ghost var ahead := DropsAhead(s, d, step, k + 1);
      StepBlock(blk, step);
      ghost var now := Places(s);
      forall j | 0 <= j < |s|
        ensures now[j] == if blk in s then p[k := (blk.x, blk.y, blk.settled)][j] else p[j]
      {
        if s[j] != blk {
          assert now[j] == p[j];
        }
      }
      if !Landed(blk) && ahead {
        forall j | k + 1 <= j < |s|
          ensures BlockOk(s[j]) && d[j] == Drop(s[j].x, s[j].y, s[j].size, step)
        {
          assert s[j] != blk;
          assert old(BlockOk(s[j]) && d[j] == Drop(s[j].x, s[j].y, s[j].size, step));
        }
      }
    }

    /** One pass of the frame loop: the block at position `i` of the live
        list takes its turn, and the loop's bookkeeping moves on as
        `TrackTurn` says; until a block has landed, the live list, score,
        level and grid stay as they were, and outside ROTATE the score and
        level always do. */
    method PassTurn(ghost s: seq<Block>, ghost p0: seq<(int, int, bool)>, ghost d: seq<(bool, int)>, step: int,
                i: nat, blk: Block, ghost t: Pass, ghost p: seq<(int, int, bool)>)
      returns (ghost t': Pass, ghost p': seq<(int, int, bool)>)
      requires Valid() && step >= 0 && Distinct(s) && i < |currentBlocks| && blk == currentBlocks[i]
      requires p == Places(s) && Tracks(s, p0, p, d, step, currentBlocks, i, t)
      requires !t.renewed && t.first == t.k ==> DropsAhead(s, d, step, t.k)
      modifies this, grid.occupied, blk`y, blk`settled
      ensures Valid() && mode == old(mode) && level >= old(level) && score >= old(score)
      ensures Joined() && i < 4
      ensures p' == Places(s) && Tracks(s, p0, p', d, step, currentBlocks, i + 1, t')
      ensures t'.first == t'.k ==>
        t.first == t.k && score == old(score) && level == old(level) &&
        currentBlocks == old(currentBlocks) && grid.Cells() == old(grid.Cells())
      ensures !t'.renewed && t'.first == t'.k ==> DropsAhead(s, d, step, t'.k)
      ensures mode != Some(Rotate) ==> score == old(score) && level == old(level)
    {
      ghost var was := currentBlocks;
      ghost var before := (blk.x, blk.y, blk.settled);
      FewBlocks();
      assert blk in was;
      if !t.renewed {
        assert t.k < |s| && blk == s[t.k] by {
          assert was[|t.kept|] == s[t.k..][0];
        }
        assert blk in s && p[t.k] == before;
        if t.first == t.k {
          assert d[t.k] == Drop(blk.x, blk.y, blk.size, step);
          assert DropsAhead(s, d, step, t.k + 1);
        }
      }
      StepInList(s, d, t.k, blk, step);
      ghost var q := (blk.x, blk.y, blk.settled);
      ghost var landed := !before.2 && q.2;
      assert landed == Landed(blk);
      assert if before.2 then q.1 == before.1 && q.2 else q.2 || q.1 == before.1 + step;
      assert !t.renewed && landed && t.first == t.k ==> (true, q.1) == d[t.k];
      assert !t.renewed && !landed && t.first == t.k && !before.2 ==> (false, q.1) == d[t.k];
      ghost var renew := landed && (CharMode(mode) || Without(was, blk) == []);
      p' := Places(s);
      t' := TrackTurn(s, p0, p, p', d, step, was, i, t, blk, q, landed, currentBlocks, renew);
    }

    /** `PassTurn` within the frame loop, in a game whose mode, score, level
        and grid were `m`, `sc`, `lv` and `cells` when the frame began. */
    method TakeTurn(ghost s: seq<Block>, ghost p0: seq<(int, int, bool)>, ghost d: seq<(bool, int)>, step: int,
                    i: nat, blk: Block, ghost t: Pass, ghost p: seq<(int, int, bool)>,
                    ghost m: Option<Mode>, ghost sc: int, ghost lv: int,
                    ghost cells: map<(int, int), Option<string>>)
      returns (ghost t': Pass, ghost p': seq<(int, int, bool)>)
      requires Turning(s, p0, d, step, i, t, p, m, sc, lv, cells) && i < |currentBlocks| && blk == currentBlocks[i]
      modifies this, grid.occupied, blk`y, blk`settled
      ensures Turning(s, p0, d, step, i + 1, t', p', m, sc, lv, cells)
      ensures Joined()
    {
      t', p' := PassTurn(s, p0, d, step, i, blk, t, p);
    }

    /** The loop of `update` over the live list of falling blocks: a landing
        block leaves the list (so the block after it waits for the next
        frame) and a new round's blocks join it, to be stepped from the next
        position on. */
    method FallLoop(ghost s: seq<Block>, ghost p0: seq<(int, int, bool)>, ghost d: seq<(bool, int)>, step: int)
      returns (ghost first: nat)
      requires Valid() && step >= 0 && s == currentBlocks && p0 == Places(s) && DropsAhead(s, d, step, 0)
      modifies this, grid.occupied, s
      ensures Valid() && mode == old(mode) && level >= old(level) && score >= old(score)
      ensures Progress(p0, Places(s), d, step, |s|, first)
      ensures first == |s| ==>
        score == old(score) && level == old(level) && currentBlocks == old(currentBlocks) &&
        grid.Cells() == old(grid.Cells())
      ensures mode != Some(Rotate) ==> score == old(score) && level == old(level)
    {
      ghost var t, p := Pass(0, [], false, 0), p0;
      ghost var m, sc, lv, cells := mode, score, level, grid.Cells();
      TurningStart(s, p0, d, step);
      var i := 0;
      while i < |currentBlocks|
        invariant Turning(s, p0, d, step, i, t, p, m, sc, lv, cells)
        invariant forall b | b in currentBlocks && b !in s :: fresh(b)
        decreases 4 - i
      {
        var blk := currentBlocks[i];
        assert blk in currentBlocks;
        assert blk in s || fresh(blk);
        t, p := TakeTurn(s, p0, d, step, i, blk, t, p, m, sc, lv, cells);
        i := i + 1;
      }
      TurningDone(s, p0, d, step, i, t, p, m, sc, lv, cells);
      first := t.first;
    }

    /** The frame loop of ROTATE and PINYIN, whose live list holds at most
        one block: that block takes its step, and if it comes to rest it
        does what `ScoredFrom` and `WroteFrom` say. */
    method FallOne(ghost s: seq<Block>, ghost p0: seq<(int, int, bool)>, ghost d: seq<(bool, int)>, step: int)
      returns (ghost first: nat)
      requires Valid() && CharMode(mode) && step >= 0 && s == currentBlocks && p0 == Places(s)
      requires DropsAhead(s, d, step, 0)
      modifies this, grid.occupied, s
      ensures Valid() && mode == old(mode) && level >= old(level) && score >= old(score)
      ensures Progress(p0, Places(s), d, step, |s|, first)
      ensures first == |s| ==>
        score == old(score) && level == old(level) && currentBlocks == old(currentBlocks) &&
        grid.Cells() == old(grid.Cells())
      ensures mode != Some(Rotate) ==> score == old(score) && level == old(level)
      ensures |s| == 1 && Landed(s[0]) ==>
        ScoredFrom(old(BeforeLanding(s[0]))) && WroteFrom(s[0], old(BeforeLanding(s[0])))
    {
      FewBlocks();
      if |currentBlocks| == 0 {
        first := 0;
        TracksStart(s, p0, d, step);
      } else {
        var blk := currentBlocks[0];
        ghost var before := (blk.x, blk.y, blk.settled);
        assert s == [blk] && d[0] == Drop(blk.x, blk.y, blk.size, step);
        StepInList(s, d, 0, blk, step);
        ghost var q := (blk.x, blk.y, blk.settled);
        ghost var landed := Landed(blk);
        assert Places(s) == p0[0 := q];
        assert if before.2 then q.1 == before.1 && q.2 else q.2 || q.1 == before.1 + step;
        assert landed ==> (true, q.1) == d[0];
        assert !landed && !before.2 ==> (false, q.1) == d[0];
        assert Progress(p0, p0, d, step, 0, 0);
        assert s[0..] == s;
        ghost var k', kept', first' := PassOver(s, p0, p0, d, step, 0, 0, [], q, landed);
        first := first';
      }
    }

    /** The frame loop of the current mode over the live list `s`, whose
        blocks stood at `p0` when the frame began and whose `Drop`s are `d`. */
    method FallFrame(ghost s: seq<Block>, ghost p0: seq<(int, int, bool)>, ghost d: seq<(bool, int)>, step: int)
      returns (ghost first: nat)
      requires Valid() && step >= 0 && s == currentBlocks && p0 == Places(s) && d == DropsOf(s, step)
      modifies this, grid.occupied, s
      ensures Valid() && mode == old(mode) && level >= old(level) && score >= old(score)
      ensures Progress(p0, Places(s), d, step, |s|, first)
      ensures first == |s| ==>
        score == old(score) && level == old(level) && currentBlocks == old(currentBlocks) &&
        grid.Cells() == old(grid.Cells())
      ensures mode != Some(Rotate) ==> score == old(score) && level == old(level)
      ensures CharMode(mode) && |s| == 1 && Landed(s[0]) ==>
        ScoredFrom(old(BeforeLanding(s[0]))) && WroteFrom(s[0], old(BeforeLanding(s[0])))
    {
      if CharMode(mode) {
        first := FallOne(s, p0, d, step);
      } else {
        first := FallLoop(s, p0, d, step);
      }
    }

    /** `FallFrame`, told block by block: each block of `s` took its turn. */
    method FallTurns(ghost s: seq<Block>, ghost p0: seq<(int, int, bool)>, ghost d: seq<(bool, int)>, step: int)
      returns (ghost first: nat)
      requires Valid() && step >= 0 && s == currentBlocks && p0 == Places(s) && d == DropsOf(s, step)
      modifies this, grid.occupied, s
      ensures Valid() && mode == old(mode) && level >= old(level) && score >= old(score)
      ensures Progress(p0, Places(s), d, step, |s|, first)
      ensures forall j :: 0 <= j < |s| ==> TookTurn(s, j, step)
      ensures first == |s| ==>
        score == old(score) && level == old(level) && currentBlocks == old(currentBlocks) &&
        grid.Cells() == old(grid.Cells())
      ensures mode != Some(Rotate) ==> score == old(score) && level == old(level)
      ensures CharMode(mode) && |s| == 1 && Landed(s[0]) ==>
        ScoredFrom(old(BeforeLanding(s[0]))) && WroteFrom(s[0], old(BeforeLanding(s[0])))
    {
      first := FallFrame(s, p0, d, step);
      ghost var p := Places(s);
      assert Progress(p0, p, d, step, |s|, first);
      forall j | 0 <= j < |s|
        ensures TookTurn(s, j, step)
      {
        assert TurnTaken(p0, p, step, j);
        assert p[j] == (s[j].x, s[j].y, s[j].settled) && p0[j] == old((s[j].x, s[j].y, s[j].settled));
        if j > 0 {
          assert p[j - 1].2 == s[j - 1].settled && p0[j - 1].2 == old(s[j - 1].settled);
        }
      }
    }

    /** The frame loop, block by block of the live list as the frame began:
        the block right after one that lands is skipped this frame, and every
        other block takes its step.  `first` is the position of the first
        block to land (the list's length when none does); it and the
        falling blocks before it end where `Drop` puts them on the grid the
        frame began with.  When no block's
        `Drop` lands, nothing lands and the game and its grid stay as they
        were. */
    method FallAll(step: int) returns (ghost first: nat)
      requires Valid() && step >= 0
      modifies this, grid.occupied, currentBlocks
      ensures Valid() && mode == old(mode) && level >= old(level) && score >= old(score)
      ensures forall j :: 0 <= j < |old(currentBlocks)| ==> TookTurn(old(currentBlocks), j, step)
      ensures first <= |old(currentBlocks)|
      ensures forall j :: 0 <= j < first ==> !Landed(old(currentBlocks)[j])
      ensures forall j :: 0 <= j < first && !old(currentBlocks[j].settled) ==>
        (false, old(currentBlocks)[j].y) == old(DropsOf(currentBlocks, step))[j]
      ensures first < |old(currentBlocks)| ==> Landed(old(currentBlocks)[first])
      ensures first < |old(currentBlocks)| ==>
        (true, old(currentBlocks)[first].y) == old(DropsOf(currentBlocks, step))[first]
      ensures first == |old(currentBlocks)| ==>
        score == old(score) && level == old(level) && currentBlocks == old(currentBlocks) &&
        grid.Cells() == old(grid.Cells())
      ensures (forall j :: 0 <= j < |old(currentBlocks)| && !old(currentBlocks[j].settled) ==>
                 !old(DropsOf(currentBlocks, step))[j].0) ==>
        first == |old(currentBlocks)|
      ensures mode != Some(Rotate) ==> score == old(score) && level == old(level)
      ensures CharMode(mode) && |old(currentBlocks)| == 1 && Landed(old(currentBlocks)[0]) ==>
        var b := old(currentBlocks)[0];
        ScoredFrom(old(BeforeLanding(b))) && WroteFrom(b, old(BeforeLanding(b)))
    {
      ghost var s, p0, d := currentBlocks, Places(currentBlocks), DropsOf(currentBlocks, step);
      first := FallTurns(s, p0, d, step);
    }

    /** Every block falling when the frame began takes its turn, and then a
        glyph in the top row ends the game.  When no block lands, the score
        and the grid stay as they were unless the game ends. */
    method Descend(step: int)
      requires Valid() && step >= 0
      modifies this, grid.occupied, currentBlocks
      ensures Valid() && level >= old(level) && score >= old(score) && !grid.AtTop()
      ensures mode == old(mode) || (mode == None && currentBlocks == [] && grid.Empty())
      ensures forall j :: 0 <= j < |old(currentBlocks)| ==> TookTurn(old(currentBlocks), j, step)
      ensures (forall j :: 0 <= j < |old(currentBlocks)| ==> !Landed(old(currentBlocks)[j])) ==>
        score == old(score) && (grid.Cells() == old(grid.Cells()) || (mode == None && grid.Empty()))
      ensures old(mode) != Some(Rotate) ==> score == old(score) && level == old(level)
      ensures CharMode(old(mode)) && |old(currentBlocks)| == 1 && Landed(old(currentBlocks)[0]) ==>
        var b := old(currentBlocks)[0];
        ScoredFrom(old(BeforeLanding(b))) && (WroteFrom(b, old(BeforeLanding(b))) || (mode == None && grid.Empty()))
    {
      ghost var first := FallAll(step);
      CheckTop();
    }

    /** The end of the frame loop: a glyph in the top row ends the game, with
        no mode, no blocks and an empty grid. */
    method CheckTop()
      requires Valid()
      modifies this`mode, this`currentBlocks, grid.occupied
      ensures Valid() && !grid.AtTop()
      ensures old(grid.AtTop()) ==> mode == None && currentBlocks == [] && grid.Empty()
      ensures !old(grid.AtTop()) ==>
        mode == old(mode) && currentBlocks == old(currentBlocks) && unchanged(grid.occupied)
    {
      var reached := grid.ReachedTop();
      if reached {
        mode := None;
        currentBlocks := [];
        grid.Clear();
      }
    }

    /** The one-second PINYIN success pause, during which a frame moves nothing. */
    predicate InPinyinDelay(now: int)
      reads this`mode, this`pinyinSuccessUntil
    {
      mode == Some(Pinyin) && pinyinSuccessUntil > 0 && now < pinyinSuccessUntil
    }

    /** A success pause of the current mode that has run out by `now`. */
    ghost predicate PauseOver(now: int)
      reads this`mode, this`pinyinSuccessUntil, this`idiomSuccessUntil
    {
      || (mode == Some(Pinyin) && pinyinSuccessUntil > 0 && now >= pinyinSuccessUntil)
      || (mode == Some(Idiom) && idiomSuccessUntil > 0 && now >= idiomSuccessUntil)
    }

    /** The end of `update`: a success pause that has run out starts the next
        round. */
    method Expire(now: int)
      requires Valid()
      modifies this
      ensures Valid() && mode == old(mode) && level == old(level) && score == old(score)
      ensures !PauseOver(now)
      ensures old(PauseOver(now)) ==> RoundStarted()
      ensures !old(PauseOver(now)) ==> unchanged(this)
    {
      if mode == Some(Pinyin) && pinyinSuccessUntil > 0 && now >= pinyinSuccessUntil {
        currentBlocks := [];
        SpawnRound();
      }
      if mode == Some(Idiom) && idiomSuccessUntil > 0 && now >= idiomSuccessUntil {
        currentBlocks := [];
        idiomClickedBlocks := [];
        SpawnRound();
      }
    }

    /** `update` for one frame at time `now`, with the down arrow held or
        not.  Outside the PINYIN success pause the frame goes as `Descend`
        says, with the fast step while the down arrow is held; then a success
        pause that has run out starts the next round. */
    method Update(now: int, down: bool)
      requires Valid()
      modifies this, grid.occupied, currentBlocks
      ensures Valid() && level >= old(level) && score >= old(score)
      ensures mode == old(mode) || (mode == None && currentBlocks == [] && grid.Empty())
      ensures old(InPinyinDelay(now)) ==>
        unchanged(this) && unchanged(grid.occupied) && unchanged(currentBlocks)
      ensures !old(InPinyinDelay(now)) ==> !grid.AtTop()
      ensures !PauseOver(now)
      ensures !old(InPinyinDelay(now)) ==>
        forall j :: 0 <= j < |old(currentBlocks)| ==> TookTurn(old(currentBlocks), j, FrameStep(old(mode), down))
      ensures !old(InPinyinDelay(now)) && (forall j :: 0 <= j < |old(currentBlocks)| ==> !Landed(old(currentBlocks)[j])) ==>
        score == old(score) && (grid.Cells() == old(grid.Cells()) || (mode == None && grid.Empty()))
      ensures old(mode) != Some(Rotate) ==> score == old(score) && level == old(level)
      ensures !old(InPinyinDelay(now)) && CharMode(old(mode)) && |old(currentBlocks)| == 1 &&
              Landed(old(currentBlocks)[0]) ==>
        var b := old(currentBlocks)[0];
        ScoredFrom(old(BeforeLanding(b))) && (WroteFrom(b, old(BeforeLanding(b))) || (mode == None && grid.Empty()))
    {
      if !InPinyinDelay(now) {
        Descend(FrameStep(mode, down));
      }
      Expire(now);
    }

    // -------------------------------------------------------------------
    // Spawning

    method SpawnCharacter()
      requires Settings() && CharMode(mode) && currentBlocks == []
      requires currentChar == None && currentPinyin == None
      modifies this`currentBlocks, this`currentChar, this`currentPinyin, this`usedChars, this`drawn
      ensures CharSpawned(LevelData(charLevels, level), mode == Some(Rotate), old(usedChars), old(drawn))
      ensures |currentBlocks| <= 1 && Distinct(currentBlocks) && usedChars <= old(usedChars)
      ensures currentBlocks != [] <==> LevelData(charLevels, level) != []
      ensures currentChar.Some? <==> currentBlocks != []
      ensures forall b :: b in currentBlocks ==> fresh(b) && !b.settled && BlockOk(b)
    {
      var ds := LevelData(charLevels, level);
      if ds == [] {
        return;
      }
      var p := PickChar(ds, usedChars, mode == Some(Rotate), grid.cols, rand, drawn);
      if p.resetUsed {
        usedChars := {};
      }
      var size := grid.cell;
      SpawnXInside(SidebarW, grid.width, size, p.col);
      grid.RowInside(0);
      var x := SidebarW + p.col * size;
      var b := new Block(Min(x, SidebarW + grid.width - size), 0, size, p.entry.glyph, p.angle);
      currentBlocks := [b];
      currentChar := Some(p.entry.glyph);
      currentPinyin := Some(p.entry.pinyin);
      drawn := p.next;
    }

    method SpawnIdiom()
      requires Settings() && mode == Some(Idiom) && currentBlocks == [] && idiomTarget == None
      modifies this`currentBlocks, this`idiomTarget, this`drawn
      ensures IdiomSpawned(LevelData(idiomLevels, level), old(drawn))
      ensures Distinct(currentBlocks) && |currentBlocks| <= 4
      ensures idiomTarget.Some? <==> LevelData(idiomLevels, level) != []
      ensures forall b :: b in currentBlocks ==> fresh(b) && !b.settled && BlockOk(b)
    {
      var idioms := LevelData(idiomLevels, level);
      if idioms == [] {
        return;
      }
      var r := Deal(idioms, grid.cols, Sample, rand, drawn);
      PlaceIdiom(r);
    }

    /** The dealt idiom becomes the target and its blocks the falling ones. */
    method PlaceIdiom(r: IdiomDeal)
      requires Settings() && |r.cols| == 4 && forall k :: 0 <= k < 4 ==> 0 <= r.cols[k] < grid.cols
      modifies this`currentBlocks, this`idiomTarget, this`drawn
      ensures IdiomPlaced(r) && Distinct(currentBlocks) && |currentBlocks| <= 4
      ensures forall b :: b in currentBlocks ==> fresh(b) && !b.settled && BlockOk(b)
    {
      var made := IdiomBlocks(r);
      idiomTarget := Some(r.target);
      currentBlocks := made;
      drawn := r.next;
    }

    method IdiomBlocks(r: IdiomDeal) returns (made: seq<Block>)
      requires Settings() && |r.cols| == 4 && forall k :: 0 <= k < 4 ==> 0 <= r.cols[k] < grid.cols
      ensures Placed(made, r) && Distinct(made)
      ensures forall b :: b in made ==> fresh(b) && !b.settled && BlockOk(b)
    {
      var size := grid.cell;
      grid.RowInside(0);
      var n := Min(|r.chars|, 4);
      made := [];
      var i := 0;
      while i < n
        invariant 0 <= i <= n && |made| == i
        invariant Distinct(made)
        invariant forall k :: 0 <= k < i ==>
          && fresh(made[k]) && !made[k].settled && BlockOk(made[k])
          && made[k].glyph == [r.chars[k]]
          && made[k].x == SidebarW + r.cols[k] * grid.cell
          && made[k].y == grid.top && made[k].angle == 0
      {
        var col := r.cols[i];
        SpawnXInside(SidebarW, grid.width, size, col);
        var b := new Block(SidebarW + col * size, 0, size, [r.chars[i]], 0);
        made := made + [b];
        i := i + 1;
      }
    }

    /** `spawn_round`: reset the round's typing and clicking state, then place
        the next character or the next idiom. */
    method SpawnRound()
      requires Settings() && mode.Some?
      modifies this`currentBlocks, this`currentChar, this`currentPinyin, this`typed
      modifies this`idiomTarget, this`idiomClickIndex, this`idiomClickedBlocks
      modifies this`idiomSuccessUntil, this`pinyinSuccessUntil, this`usedChars, this`drawn
      modifies this`roundBlocks
      ensures Valid() && RoundStarted()
      ensures forall b :: b in currentBlocks ==> fresh(b)
      ensures usedChars <= old(usedChars)
      ensures mode == Some(Idiom) ==> usedChars == old(usedChars)
    {
      SpawnBlocks();
      roundBlocks := currentBlocks;
    }

    /** The body of `spawn_round` without the ghost bookkeeping. */
    method SpawnBlocks()
      requires Settings() && mode.Some?
      modifies this`currentBlocks, this`currentChar, this`currentPinyin, this`typed
      modifies this`idiomTarget, this`idiomClickIndex, this`idiomClickedBlocks
      modifies this`idiomSuccessUntil, this`pinyinSuccessUntil, this`usedChars, this`drawn
      ensures typed == "" && idiomClickIndex == 0 && idiomClickedBlocks == []
      ensures idiomSuccessUntil == 0 && pinyinSuccessUntil == 0
      ensures Distinct(currentBlocks) && |currentBlocks| <= (if CharMode(mode) then 1 else 4)
      ensures forall b :: b in currentBlocks ==> fresh(b) && !b.settled && BlockOk(b)
      ensures CharMode(mode) ==>
        && idiomTarget == None
        && (currentBlocks != [] <==> LevelData(charLevels, level) != [])
        && (currentChar.Some? <==> currentBlocks != [])
      ensures mode == Some(Idiom) ==>
        && currentChar == None && currentPinyin == None && usedChars == old(usedChars)
        && (idiomTarget.Some? <==> LevelData(idiomLevels, level) != [])
      ensures usedChars <= old(usedChars)
    {
      ClearRound();
      if CharMode(mode) {
        SpawnCharacter();
      } else {
        SpawnIdiom();
      }
    }

    /** The reset at the head of `spawn_round`: no blocks, no character or
        idiom, nothing typed or clicked, no success pause running. */
    method ClearRound()
      modifies this`currentBlocks, this`currentChar, this`currentPinyin, this`typed
      modifies this`idiomTarget, this`idiomClickIndex, this`idiomClickedBlocks
      modifies this`idiomSuccessUntil, this`pinyinSuccessUntil
      ensures currentBlocks == [] && currentChar == None && currentPinyin == None
      ensures typed == "" && idiomTarget == None && idiomClickIndex == 0
      ensures idiomClickedBlocks == [] && idiomSuccessUntil == 0 && pinyinSuccessUntil == 0
    {
      currentBlocks := [];
      currentChar := None;
      currentPinyin := None;
      typed := "";
      idiomTarget := None;
      idiomClickIndex := 0;
      idiomClickedBlocks := [];
      idiomSuccessUntil := 0;
      pinyinSuccessUntil := 0;
    }
  }
}
