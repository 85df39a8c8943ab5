/** The browser front end (static/game.js): one `Game` object holding the mode,
    the score and level, the falling blocks and the idiom click sequence, driven
    by key, button and canvas events and by the per-frame `update`.  Wall-clock
    time is the `now` parameter of each handler; randomness is the oracle `rand`
    with `drawn` counting the draws made so far. */
module Browser {
  import opened Playfield
  import opened Rounds
  import ToneMarks

  /** Rows of the canvas when the cell is a tenth of its height. */
  lemma TenRows(height: int)
    requires height >= 10
    ensures height / 10 > 0 && height / (height / 10) >= 10
  {
    var cell := height / 10;
    var q, r := height / cell, height % cell;
    if q < 10 {
      MulMonotone(q + 1, 10, cell);
      assert false;
    }
  }

  /** A key that types into the PINYIN answer: one ASCII letter. */
  predicate LetterKey(key: string) {
    |key| == 1 && ToneMarks.IsAsciiLetter(key[0])
  }

  /** What a key does to the typed PINYIN answer: Backspace drops the last
      character, a letter key appends its lower-case letter, anything else is
      ignored.  Only lower-case letters ever get in. */
  function TypeKey(typed: string, key: string): (r: string)
    ensures (forall i :: 0 <= i < |typed| ==> 'a' <= typed[i] <= 'z') ==>
              forall i :: 0 <= i < |r| ==> 'a' <= r[i] <= 'z'
    ensures |r| <= |typed| + 1
  {
    if key == "Backspace" then (if typed == [] then typed else typed[..|typed| - 1])
    else if LetterKey(key) then typed + [ToneMarks.Lower(key[0])]
    else typed
  }

  /** Backspace takes back the letter just typed. */
  lemma BackspaceUndoes(typed: string, c: char)
    requires ToneMarks.IsAsciiLetter(c)
    ensures TypeKey(TypeKey(typed, [c]), "Backspace") == typed
  {
    assert [c] != "Backspace";
    var t := typed + [ToneMarks.Lower(c)];
    assert t[..|t| - 1] == typed;
  }

  /** The keys pressed one after another. */
  function TypeKeys(typed: string, keys: seq<string>): (r: string)
    ensures |r| <= |typed| + |keys|
    decreases keys
  {
    if keys == [] then typed else TypeKeys(TypeKey(typed, keys[0]), keys[1..])
  }

  /** However many keys are pressed, only lower-case letters get into the
      typed answer. */
  lemma {:induction false} TypingKeepsLetters(typed: string, keys: seq<string>)
    requires forall i :: 0 <= i < |typed| ==> 'a' <= typed[i] <= 'z'
    ensures forall i :: 0 <= i < |TypeKeys(typed, keys)| ==> 'a' <= TypeKeys(typed, keys)[i] <= 'z'
    decreases keys
  {
    if keys != [] {
      TypingKeepsLetters(TypeKey(typed, keys[0]), keys[1..]);
    }
  }

  /** One key per character of `s`. */
  function KeysOf(s: string): (ks: seq<string>)
    ensures |ks| == |s|
  {
    if s == [] then [] else [[s[0]]] + KeysOf(s[1..])
  }

  /** A lower-case letter key appends that letter. */
  lemma TypeLetter(typed: string, c: char)
    requires 'a' <= c <= 'z'
    ensures TypeKey(typed, [c]) == typed + [c]
  {
    assert |[c]| != |"Backspace"|;
  }

  /** Typing the letters of a lower-case word appends exactly that word; so an
      answer whose normalised pinyin is all letters can be typed in full. */
  lemma {:induction false} TypingAppends(typed: string, s: string)
    requires forall i :: 0 <= i < |s| ==> 'a' <= s[i] <= 'z'
    ensures TypeKeys(typed, KeysOf(s)) == typed + s
    decreases s
  {
    if s != [] {
      var rest := KeysOf(s[1..]);
      var ks := [[s[0]]] + rest;
      assert ks[0] == [s[0]] && ks[1..] == rest;
      TypeLetter(typed, s[0]);
      TypingAppends(typed + [s[0]], s[1..]);
      assert typed + [s[0]] + s[1..] == typed + s;
    }
  }

  /** The falling speeds, in tenths of a pixel per frame. */
  const FallSpeed := 20
  const FastFallSpeed := 80

  /** The step of one frame in whole pixels: the fast speed while down is
      held, halved in IDIOM and scaled by 0.7 in ROTATE and PINYIN. */
  function FrameStep(m: Option<Mode>, fast: bool): (step: nat)
    ensures 1 <= step <= 8
    ensures step * 10 <= (if fast then FastFallSpeed else FallSpeed)
    ensures var pct := if m == Some(Idiom) then 50 else if CharMode(m) then 70 else 100;
      var speed := if fast then FastFallSpeed else FallSpeed;
      step * 1000 <= speed * pct < (step + 1) * 1000
  {
    var speed := if fast then FastFallSpeed else FallSpeed;
    if m == Some(Idiom) then speed * 5 / 100
    else if CharMode(m) then speed * 7 / 100
    else speed / 10
  }

  /** The arrow keys `update` consumes. */
  const ArrowKeys: set<string> := {"ArrowLeft", "Left", "ArrowRight", "Right"}

  /** Consuming the arrow keys leaves the down keys alone. */
  lemma DownKeysKept(keys: set<string>)
    ensures "ArrowDown" in keys - ArrowKeys <==> "ArrowDown" in keys
    ensures "Down" in keys - ArrowKeys <==> "Down" in keys
  {
    assert "ArrowDown" !in ArrowKeys by { assert "ArrowDown"[5] != "ArrowLeft"[5] && "ArrowDown"[5] != "ArrowRight"[5]; }
    assert "Down" !in ArrowKeys by { assert "Down"[0] != "Left"[0] && "Down"[0] != "Right"[0] && "Down"[0] != "ArrowLeft"[0]; }
  }

  class Game {
    const grid: Grid
    const sidebarW: int
    /** Per level, the characters with their pinyin (level n at index n - 1). */
    const charLevels: seq<seq<Entry>>
    /** Per level, the idioms. */
    const idiomLevels: seq<seq<string>>
    const rand: nat -> nat
    var drawn: nat

    var mode: Option<Mode>
    var score: int
    var level: int
    var rightCount: int
    var targetRight: int

    var currentBlocks: seq<Block>
    var currentChar: Option<string>
    var currentPinyin: Option<string>
    var typed: string
    var idiomTarget: Option<string>
    var idiomClickIndex: int
    var idiomClickedBlocks: seq<Block>
    var idiomSuccessUntil: int
    var pinyinSuccessUntil: int
    var usedChars: set<string>

    /** Keys whose last event was a keydown. */
    var keys: set<string>
    var lastLeft: int
    var lastRight: int
    var lastRotate: int

    /** The blocks the current round spawned. */
    ghost var roundBlocks: seq<Block>

    /** The layout and level bounds that no handler changes. */
    ghost predicate Settings()
      reads this`level, this`mode
    {
      && grid.Valid() && grid.left == sidebarW && grid.top == 0
      && grid.rows >= 2 && grid.cols >= 4
      && 1 <= level <= 14 && (mode == Some(Idiom) ==> level <= 6)
    }

    /** A block of the round: one cell in size, between the walls, floor and
        ceiling, turned by a multiple of a quarter turn. */
    ghost predicate BlockOk(b: Block)
      reads b`x, b`y, b`angle
    {
      && b.size == grid.cell
      && grid.left <= b.x && b.x + b.size <= grid.left + grid.width
      && grid.top <= b.y && b.y + b.size <= grid.top + grid.height
      && RightAngle(b.angle)
    }

    /** The click sequence is a prefix of the target, one distinct block per
        character clicked so far. */
    ghost predicate ClicksFollowTarget()
      reads this`idiomClickIndex, this`idiomClickedBlocks, this`idiomTarget
    {
      && idiomClickIndex == |idiomClickedBlocks|
      && Distinct(idiomClickedBlocks)
      && (idiomTarget.None? ==> idiomClickedBlocks == [])
      && (idiomTarget.Some? ==>
            && |idiomClickedBlocks| <= |idiomTarget.value|
            && forall i :: 0 <= i < |idiomClickedBlocks| ==>
                 idiomClickedBlocks[i].glyph == [idiomTarget.value[i]])
    }

    /** Every block on the field and every clicked block was spawned by the
        current round, which spawned at most four blocks (one in ROTATE and
        PINYIN). */
    ghost predicate FromRound()
      reads this`mode, this`currentBlocks, this`idiomClickedBlocks, this`roundBlocks
    {
      && |roundBlocks| <= 4
      && (CharMode(mode) ==> |roundBlocks| <= 1)
      && (forall b :: b in roundBlocks ==> b.size == grid.cell)
      && (forall b :: b in currentBlocks ==> b in roundBlocks)
      && (forall b :: b in idiomClickedBlocks ==> b in roundBlocks)
    }

    /** Only lower-case ASCII letters are ever typed. */
    ghost predicate TypedLetters()
      reads this`typed
    {
      forall i :: 0 <= i < |typed| ==> 'a' <= typed[i] <= 'z'
    }

    ghost predicate Valid()
      reads this`mode, this`level, this`currentBlocks, this`idiomClickIndex
      reads this`idiomClickedBlocks, this`idiomTarget, this`roundBlocks, this`typed
      reads currentBlocks`x, currentBlocks`y, currentBlocks`angle
    {
      && Settings()
      && (mode.None? ==> currentBlocks == [])
      && Distinct(currentBlocks)
      && (forall b :: b in currentBlocks ==> BlockOk(b))
      && ClicksFollowTarget() && FromRound() && TypedLetters()
    }

    /** At most four blocks fall at once in IDIOM and at most one otherwise,
        and at most four are clicked. */
    lemma FewBlocks()
      requires Valid()
      ensures |currentBlocks| <= 4 && |idiomClickedBlocks| <= 4
      ensures CharMode(mode) ==> |currentBlocks| <= 1
    {
      DistinctWithin(currentBlocks, roundBlocks);
      DistinctWithin(idiomClickedBlocks, roundBlocks);
    }

    /** The state `spawnRound` leaves in ROTATE/PINYIN, given the used set and
        draw counter it started from. */
    ghost predicate CharSpawned(ds: seq<Entry>, rotate: bool, used0: set<string>, d0: nat)
      requires grid.Valid() && grid.cols > 0
      reads this`currentBlocks, this`currentChar, this`currentPinyin, this`usedChars, this`drawn
      reads currentBlocks
    {
      if ds == [] then
        currentBlocks == [] && currentChar == None && currentPinyin == None
        && usedChars == used0 && drawn == d0
      else
        var p := PickChar(ds, used0, rotate, grid.cols, rand, d0);
        && |currentBlocks| == 1
        && currentBlocks[0].glyph == p.entry.glyph && currentBlocks[0].angle == p.angle
        && currentBlocks[0].x == sidebarW + p.col * grid.cell && currentBlocks[0].y == grid.top
        && currentChar == Some(p.entry.glyph) && currentPinyin == Some(p.entry.pinyin)
        && usedChars == (if p.resetUsed then {} else used0)
        && drawn == p.next
    }

    /** The state `spawnRound` leaves in IDIOM: the target drawn first, its
        characters shuffled (with retries), at most four of them placed on
        distinct columns in ascending order. */
    ghost predicate IdiomSpawned(idioms: seq<string>, d0: nat)
      requires grid.Valid()
      reads this`currentBlocks, this`idiomTarget, this`drawn, currentBlocks
    {
      if idioms == [] then
        currentBlocks == [] && idiomTarget == None && drawn == d0
      else
        IdiomPlaced(DealIdiom(idioms, grid.cols, Splice, rand, d0))
    }

    /** The blocks of an IDIOM round as dealt by `r`: the first four shuffled
        characters, each on its drawn column, at the top. */
    ghost predicate IdiomPlaced(r: IdiomDeal)
      reads this`currentBlocks, this`idiomTarget, this`drawn, currentBlocks
    {
      idiomTarget == Some(r.target) && drawn == r.next && Placed(currentBlocks, r)
    }

    ghost predicate Placed(bs: seq<Block>, r: IdiomDeal)
      reads bs
    {
      && |bs| == Min(|r.chars|, |r.cols|)
      && forall i :: 0 <= i < |bs| ==>
           && bs[i].glyph == [r.chars[i]]
           && bs[i].x == sidebarW + r.cols[i] * grid.cell
           && bs[i].y == grid.top && bs[i].angle == 0
    }

    /** A fresh round: typing and clicking reset, new unsettled blocks, and a
        block placed exactly when the level's dataset has something to draw. */
    ghost predicate RoundStarted()
      requires Settings()
      reads this, currentBlocks`settled
    {
      && typed == "" && idiomClickIndex == 0 && idiomClickedBlocks == []
      && idiomSuccessUntil == 0 && pinyinSuccessUntil == 0
      && (forall b :: b in currentBlocks ==> !b.settled)
      && (CharMode(mode) ==>
            && idiomTarget == None
            && (currentBlocks != [] <==> LevelData(charLevels, level) != [])
            && (currentChar.Some? <==> currentBlocks != []))
      && (mode == Some(Idiom) ==>
            && currentChar == None && currentPinyin == None
            && (idiomTarget.Some? <==> LevelData(idiomLevels, level) != []))
    }

    /** The canvas of `width` by `height` pixels: a sidebar of a fifth of the
        width, cells of a tenth of the height, no mode running. */
    constructor (width: int, height: int, charLevels: seq<seq<Entry>>,
                 idiomLevels: seq<seq<string>>, rand: nat -> nat)
      requires height >= 10 && width >= 0
      requires (width - width / 5) / (height / 10) >= 4
      ensures Valid() && mode == None && score == 0 && level == 1
      ensures rightCount == 0 && targetRight == 1 && currentBlocks == []
      ensures grid.Empty() && grid.cell == height / 10 && grid.rows >= 10
      ensures this.charLevels == charLevels && this.idiomLevels == idiomLevels
    {
      TenRows(height);
      var sw := width / 5;
      grid := new Grid(sw, 0, width - sw, height, height / 10);
      sidebarW := sw;
      this.charLevels := charLevels;
      this.idiomLevels := idiomLevels;
      this.rand := rand;
      drawn := 0;
      mode := None;
      score := 0;
      level := 1;
      rightCount := 0;
      targetRight := 1;
      currentBlocks := [];
      currentChar := None;
      currentPinyin := None;
      typed := "";
      idiomTarget := None;
      idiomClickIndex := 0;
      idiomClickedBlocks := [];
      idiomSuccessUntil := 0;
      pinyinSuccessUntil := 0;
      usedChars := {};
      keys := {};
      lastLeft := 0;
      lastRight := 0;
      lastRotate := 0;
      roundBlocks := [];
    }

    /** `awardPoints`: ten points per level, one more right answer, and the
        current character of a ROTATE/PINYIN round is marked used. */
    method AwardPoints()
      modifies this`score, this`rightCount, this`usedChars
      ensures score == old(score) + 10 * level
      ensures rightCount == old(rightCount) + 1
      ensures usedChars == if CharMode(mode) && Truthy(currentChar)
                           then old(usedChars) + {currentChar.value} else old(usedChars)
    {
      score := score + 10 * level;
      rightCount := rightCount + 1;
      if CharMode(mode) && Truthy(currentChar) {
        usedChars := usedChars + {currentChar.value};
      }
    }

    /** `setTargetRight`: the goal of the level is a tenth of its dataset;
        with no character mode running the idiom dataset is measured. */
    method SetTargetRight()
      modifies this`targetRight
      ensures targetRight == TargetRight(if CharMode(mode) then |LevelData(charLevels, level)|
                                         else |LevelData(idiomLevels, level)|)
    {
      if CharMode(mode) {
        targetRight := TargetRight(|LevelData(charLevels, level)|);
      } else {
        targetRight := TargetRight(|LevelData(idiomLevels, level)|);
      }
    }

    /** `startMode` once the level data is loaded: a new session of mode `m`
        at level 1 with score and progress reset, an empty grid, no used
        characters, and the first round spawned. */
    method StartMode(m: Mode)
      requires Valid()
      modifies this, grid.occupied
      ensures Valid() && RoundStarted()
      ensures mode == Some(m) && level == 1 && score == 0 && rightCount == 0
      ensures targetRight == TargetRight(if CharMode(mode) then |LevelData(charLevels, 1)|
                                         else |LevelData(idiomLevels, 1)|)
      ensures grid.Empty() && usedChars == {}
    {
      NewSession(m);
      SetTargetRight();
      grid.Clear();
      usedChars := {};
      SpawnRound();
    }

    method NewSession(m: Mode)
      modifies this`mode, this`level, this`score, this`rightCount
      ensures mode == Some(m) && level == 1 && score == 0 && rightCount == 0
    {
      mode := Some(m);
      level := 1;
      score := 0;
      rightCount := 0;
    }

    /** `nextLevel`: below the mode's last level, one level up with progress,
        grid and used characters reset and a new round; at the last level
        nothing changes. */
    method NextLevel()
      requires Valid() && mode.Some?
      modifies this, grid.occupied
      ensures Valid() && mode == old(mode) && score == old(score)
      ensures level <= MaxLevel(mode)
      ensures old(level) < MaxLevel(mode) ==>
        && level == old(level) + 1 && rightCount == 0 && usedChars == {}
        && grid.Empty() && RoundStarted()
        && targetRight == TargetRight(if CharMode(mode) then |LevelData(charLevels, level)|
                                      else |LevelData(idiomLevels, level)|)
      ensures old(level) >= MaxLevel(mode) ==> unchanged(this) && unchanged(grid.occupied)
    {
      if level < MaxLevel(mode) {
        LevelUp();
        SetTargetRight();
        grid.Clear();
        usedChars := {};
        SpawnRound();
      }
    }

    method LevelUp()
      modifies this`level, this`rightCount
      ensures level == old(level) + 1 && rightCount == 0
    {
      level := level + 1;
      rightCount := 0;
    }

    // -------------------------------------------------------------------
    // Player input

    /** The x a block at (x, y) ends at after a sideways move by `dx`: moved
        where the grid accepts the square there, unmoved otherwise. */
    ghost function Shift(x: int, y: int, size: int, dx: int): int
      requires grid.Valid()
      reads grid.occupied
    {
      if grid.Accepts(Rect(x + dx, y, size, size)) then x + dx else x
    }

    /** The sideways move of the falling block shared by the arrow keys and
        the left/right buttons. */
    method ShiftCurrent(dx: int)
      requires Valid() && currentBlocks != [] && CharMode(mode)
      modifies currentBlocks`x
      ensures Valid()
      ensures currentBlocks[0].x ==
        Shift(old(currentBlocks[0].x), currentBlocks[0].y, currentBlocks[0].size, dx)
    {
      FewBlocks();
      grid.ShiftIfFree(currentBlocks[0], dx);
    }

    /** The quarter turn of the falling block shared by the Space key and the
        rotate button. */
    method RotateCurrent()
      requires Valid() && currentBlocks != []
      modifies currentBlocks`angle
      ensures Valid()
      ensures currentBlocks[0].angle == Turn(old(currentBlocks[0].angle))
      ensures forall i :: 1 <= i < |currentBlocks| ==> currentBlocks[i].angle == old(currentBlocks[i].angle)
    {
      var blk := currentBlocks[0];
      blk.angle := Turn(blk.angle);
    }

    /** A PINYIN keystroke that completes the answer: the typed letters now
        equal the normalised pinyin of the current character. */
    ghost predicate Answers(key: string)
      reads this`mode, this`typed, this`currentPinyin
    {
      && mode == Some(Pinyin) && key != "Backspace" && LetterKey(key)
      && Truthy(currentPinyin) && ToneMarks.StripToneMarks(currentPinyin.value) == typed
    }

    /** The keydown handler: the key is recorded as held; in ROTATE Space turns
        the falling block; in PINYIN the key edits the answer. */
    method KeyDown(key: string, now: int)
      requires Valid()
      modifies this`keys, this`typed, this`score, this`rightCount, this`usedChars
      modifies this`pinyinSuccessUntil, currentBlocks`angle
      ensures Valid() && keys == old(keys) + {key}
      ensures mode == Some(Rotate) && key == " " && currentBlocks != [] ==>
        currentBlocks[0].angle == Turn(old(currentBlocks[0].angle))
      ensures !(mode == Some(Rotate) && key == " ") ==> unchanged(currentBlocks)
      ensures typed == if mode == Some(Pinyin) then TypeKey(old(typed), key) else old(typed)
      ensures Answers(key) ==> Scored(now)
      ensures !Answers(key) ==>
        && score == old(score) && rightCount == old(rightCount)
        && usedChars == old(usedChars) && pinyinSuccessUntil == old(pinyinSuccessUntil)
    {
      keys := keys + {key};
      if mode == Some(Rotate) && key == " " {
        if currentBlocks != [] {
          RotateCurrent();
        }
      }
      if mode == Some(Pinyin) {
        TypeAnswer(key, now);
      }
    }

    /** An answer accepted at time `now`: points awarded for the current
        character, which is marked used, and the success pause running. */
    twostate predicate Scored(now: int)
      reads this`score, this`rightCount, this`usedChars, this`pinyinSuccessUntil
      reads this`level, this`currentChar
    {
      && score == old(score) + 10 * level && rightCount == old(rightCount) + 1
      && usedChars == (if Truthy(currentChar) then old(usedChars) + {currentChar.value}
                       else old(usedChars))
      && pinyinSuccessUntil == now + 1000
    }

    /** The PINYIN half of the keydown handler. */
    method TypeAnswer(key: string, now: int)
      requires Valid() && mode == Some(Pinyin)
      modifies this`typed, this`score, this`rightCount, this`usedChars, this`pinyinSuccessUntil
      ensures Valid() && typed == TypeKey(old(typed), key)
      ensures Answers(key) ==> Scored(now)
      ensures !Answers(key) ==>
        && score == old(score) && rightCount == old(rightCount)
        && usedChars == old(usedChars) && pinyinSuccessUntil == old(pinyinSuccessUntil)
    {
      if key == "Backspace" {
        typed := TypeKey(typed, key);
      } else if LetterKey(key) {
        typed := TypeKey(typed, key);
        CheckAnswer(now);
      }
    }

    /** The answer check after a letter: typing the normalised pinyin scores
        and starts the one-second success pause. */
    method CheckAnswer(now: int)
      requires Valid() && mode == Some(Pinyin)
      modifies this`score, this`rightCount, this`usedChars, this`pinyinSuccessUntil
      ensures Valid()
      ensures Truthy(currentPinyin) && ToneMarks.StripToneMarks(currentPinyin.value) == typed ==>
        Scored(now)
      ensures !(Truthy(currentPinyin) && ToneMarks.StripToneMarks(currentPinyin.value) == typed) ==>
        && score == old(score) && rightCount == old(rightCount)
        && usedChars == old(usedChars) && pinyinSuccessUntil == old(pinyinSuccessUntil)
    {
      if Truthy(currentPinyin) && ToneMarks.StripToneMarks(currentPinyin.value) == typed {
        AwardPoints();
        pinyinSuccessUntil := now + 1000;
      }
    }

    /** The keyup handler: the key is no longer held. */
    method KeyUp(key: string)
      modifies this`keys
      ensures keys == old(keys) - {key}
    {
      keys := keys - {key};
    }

    /** `handleLeft` and `handleRight`: a press less than 100 ms after the
        last accepted one is ignored; otherwise it is recorded and, in ROTATE
        or PINYIN, the falling block moves one cell if the grid accepts it. */
    method HandleLeft(now: int)
      requires Valid()
      modifies this`lastLeft, currentBlocks`x
      ensures Valid()
      ensures lastLeft == if now - old(lastLeft) < 100 then old(lastLeft) else now
      ensures now - old(lastLeft) >= 100 && currentBlocks != [] && CharMode(mode) ==>
        currentBlocks[0].x ==
          Shift(old(currentBlocks[0].x), currentBlocks[0].y, currentBlocks[0].size, -grid.cell)
      ensures now - old(lastLeft) < 100 || currentBlocks == [] || !CharMode(mode) ==>
        unchanged(currentBlocks)
    {
      if now - lastLeft < 100 {
        return;
      }
      lastLeft := now;
      if currentBlocks != [] && CharMode(mode) {
        ShiftCurrent(-grid.cell);
      }
    }

    method HandleRight(now: int)
      requires Valid()
      modifies this`lastRight, currentBlocks`x
      ensures Valid()
      ensures lastRight == if now - old(lastRight) < 100 then old(lastRight) else now
      ensures now - old(lastRight) >= 100 && currentBlocks != [] && CharMode(mode) ==>
        currentBlocks[0].x ==
          Shift(old(currentBlocks[0].x), currentBlocks[0].y, currentBlocks[0].size, grid.cell)
      ensures now - old(lastRight) < 100 || currentBlocks == [] || !CharMode(mode) ==>
        unchanged(currentBlocks)
    {
      if now - lastRight < 100 {
        return;
      }
      lastRight := now;
      if currentBlocks != [] && CharMode(mode) {
        ShiftCurrent(grid.cell);
      }
    }

    /** `handleRotate`: rate-limited like the moves; in ROTATE the falling
        block turns a quarter. */
    method HandleRotate(now: int)
      requires Valid()
      modifies this`lastRotate, currentBlocks`angle
      ensures Valid()
      ensures lastRotate == if now - old(lastRotate) < 100 then old(lastRotate) else now
      ensures now - old(lastRotate) >= 100 && mode == Some(Rotate) && currentBlocks != [] ==>
        currentBlocks[0].angle == Turn(old(currentBlocks[0].angle))
      ensures now - old(lastRotate) < 100 || mode != Some(Rotate) || currentBlocks == [] ==>
        unchanged(currentBlocks)
    {
      if now - lastRotate < 100 {
        return;
      }
      lastRotate := now;
      if mode == Some(Rotate) && currentBlocks != [] {
        RotateCurrent();
      }
    }

    // -------------------------------------------------------------------
    // Idiom clicks

    /** Clicks are taken in IDIOM while an idiom is showing, its characters
        are not all clicked and no success pause is running. */
    ghost predicate ClickOpen()
      reads this`mode, this`idiomTarget, this`idiomClickIndex, this`idiomSuccessUntil
    {
      && mode == Some(Idiom) && Truthy(idiomTarget)
      && idiomClickIndex < |idiomTarget.value| && !(idiomSuccessUntil > 0)
    }

    /** A block a click at (px, py) can pick: still falling, not clicked yet,
        and under the point. */
    ghost predicate Pickable(b: Block, px: int, py: int)
      reads this`idiomClickedBlocks, b`settled, b`x, b`y
    {
      !b.settled && b !in idiomClickedBlocks && Rect(b.x, b.y, b.size, b.size).Contains(px, py)
    }

    /** The first pickable block at or after index k of the field. */
    ghost function FirstPickable(px: int, py: int, k: nat): (r: Option<nat>)
      requires k <= |currentBlocks|
      reads this`currentBlocks, this`idiomClickedBlocks
      reads currentBlocks`settled, currentBlocks`x, currentBlocks`y
      ensures r.Some? ==> k <= r.value < |currentBlocks| && Pickable(currentBlocks[r.value], px, py)
      ensures r.Some? ==> forall j :: k <= j < r.value ==> !Pickable(currentBlocks[j], px, py)
      ensures r.None? ==> forall j :: k <= j < |currentBlocks| ==> !Pickable(currentBlocks[j], px, py)
      decreases |currentBlocks| - k
    {
      if k == |currentBlocks| then None
      else if Pickable(currentBlocks[k], px, py) then Some(k)
      else FirstPickable(px, py, k + 1)
    }

    /** The search of `onCanvasClick` through the falling blocks. */
    method FirstHit(px: int, py: int) returns (hit: Option<nat>)
      ensures hit == FirstPickable(px, py, 0)
    {
      var i := 0;
      while i < |currentBlocks|
        invariant 0 <= i <= |currentBlocks|
        invariant FirstPickable(px, py, 0) == FirstPickable(px, py, i)
      {
        var blk := currentBlocks[i];
        if !blk.settled && blk !in idiomClickedBlocks {
          if Rect(blk.x, blk.y, blk.size, blk.size).Contains(px, py) {
            return Some(i);
          }
        }
        i := i + 1;
      }
      return None;
    }

    /** The check made once the last character is clicked: as many blocks as
        characters, each carrying its character. */
    method RecheckClicks() returns (allCorrect: bool)
      requires idiomTarget.Some?
      ensures allCorrect <==>
        && |idiomClickedBlocks| == |idiomTarget.value|
        && forall i :: 0 <= i < |idiomClickedBlocks| ==>
             idiomClickedBlocks[i].glyph == [idiomTarget.value[i]]
    {
      var target := idiomTarget.value;
      if |idiomClickedBlocks| != |target| {
        return false;
      }
      var i := 0;
      while i < |idiomClickedBlocks|
        invariant 0 <= i <= |idiomClickedBlocks|
        invariant forall j :: 0 <= j < i ==> idiomClickedBlocks[j].glyph == [target[j]]
      {
        if idiomClickedBlocks[i].glyph != [target[i]] {
          return false;
        }
        i := i + 1;
      }
      return true;
    }

    /** Where the completed idiom's first block goes: centred in the playfield. */
    function GroupX(n: int, size: int): int {
      grid.left + grid.width / 2 - (n * size) / 2
    }

    /** The completed idiom shown as a settled row one cell below the top, in
        click order. */
    ghost predicate LaidOut()
      reads this`idiomClickedBlocks, idiomClickedBlocks`settled
      reads idiomClickedBlocks`x, idiomClickedBlocks`y
    {
      forall i :: 0 <= i < |idiomClickedBlocks| ==>
        && idiomClickedBlocks[i].settled
        && idiomClickedBlocks[i].x == GroupX(|idiomClickedBlocks|, grid.cell) + i * grid.cell
        && idiomClickedBlocks[i].y == grid.top + grid.cell
    }

    /** The layout of a completed idiom, which keeps every block on the field
        within the walls. */
    method LayOut(size: int)
      requires Valid() && size == grid.cell
      modifies idiomClickedBlocks`settled, idiomClickedBlocks`x, idiomClickedBlocks`y
      ensures Valid() && LaidOut()
    {
      FewBlocks();
      Arrange(size);
      forall b | b in currentBlocks
        ensures BlockOk(b)
      {
        if b in idiomClickedBlocks {
          assert b in roundBlocks;
        }
      }
    }

    method Arrange(size: int)
      requires Settings() && Distinct(idiomClickedBlocks) && |idiomClickedBlocks| <= 4
      requires size == grid.cell
      modifies idiomClickedBlocks`settled, idiomClickedBlocks`x, idiomClickedBlocks`y
      ensures LaidOut()
      ensures forall b :: b in idiomClickedBlocks ==>
        && grid.left <= b.x && b.x + size <= grid.left + grid.width
        && grid.top <= b.y && b.y + size <= grid.top + grid.height
    {
      var n := |idiomClickedBlocks|;
      SettleClicked();
      var groupX := GroupX(n, size);
      PlaceClicked(groupX, grid.top + grid.cell, size);
      FourFit(grid.width, grid.cell, n);
      grid.RowInside(1);
      forall b | b in idiomClickedBlocks
        ensures grid.left <= b.x && b.x + size <= grid.left + grid.width
      {
        var j :| 0 <= j < n && idiomClickedBlocks[j] == b;
        RowCentred(grid.left, grid.width, n, size, j);
      }
    }

    /** Every clicked block is marked settled. */
    method SettleClicked()
      modifies idiomClickedBlocks`settled
      ensures forall j :: 0 <= j < |idiomClickedBlocks| ==> idiomClickedBlocks[j].settled
    {
      var i := 0;
      while i < |idiomClickedBlocks|
        invariant 0 <= i <= |idiomClickedBlocks|
        invariant forall j :: 0 <= j < i ==> idiomClickedBlocks[j].settled
      {
        idiomClickedBlocks[i].settled := true;
        i := i + 1;
      }
    }

    /** The clicked blocks are put side by side in click order, the first at
        `(x0, y0)`. */
    method PlaceClicked(x0: int, y0: int, size: int)
      requires Distinct(idiomClickedBlocks)
      modifies idiomClickedBlocks`x, idiomClickedBlocks`y
      ensures forall j :: 0 <= j < |idiomClickedBlocks| ==>
        idiomClickedBlocks[j].x == x0 + j * size && idiomClickedBlocks[j].y == y0
    {
      var i := 0;
      while i < |idiomClickedBlocks|
        invariant 0 <= i <= |idiomClickedBlocks|
        invariant forall j :: 0 <= j < i ==>
          idiomClickedBlocks[j].x == x0 + j * size && idiomClickedBlocks[j].y == y0
      {
        idiomClickedBlocks[i].x := x0 + i * size;
        idiomClickedBlocks[i].y := y0;
        i := i + 1;
      }
    }

    /** A wrong click: the clicked blocks still on the field fall again, and
        the sequence starts over. */
    method Release()
      modifies this`idiomClickedBlocks, this`idiomClickIndex, idiomClickedBlocks`settled
      ensures idiomClickedBlocks == [] && idiomClickIndex == 0
      ensures Released(old(idiomClickedBlocks))
    {
      var clicked := idiomClickedBlocks;
      var i := 0;
      while i < |clicked|
        invariant 0 <= i <= |clicked|
        invariant forall j :: 0 <= j < i && clicked[j] in currentBlocks ==> !clicked[j].settled
        invariant forall b :: b in clicked && b !in currentBlocks ==> b.settled == old(b.settled)
      {
        var b := clicked[i];
        if b in currentBlocks {
          b.settled := false;
        }
        i := i + 1;
      }
      idiomClickedBlocks := [];
      idiomClickIndex := 0;
    }

    /** The blocks of `was` still on the field are falling again; the others
        keep their settled flag. */
    twostate predicate Released(was: seq<Block>)
      reads this`currentBlocks, was`settled
    {
      forall b :: b in was ==> b.settled == (if b in currentBlocks then false else old(b.settled))
    }

    /** A click picked `blk` while `was` were clicked: the right character extends the sequence and,
        when the idiom is complete, lays it out, scores and starts the success
        pause; a wrong one releases the sequence. */
    twostate predicate ClickHandled(blk: Block, expected: char, was: seq<Block>, now: int)
      reads this, was`settled, idiomClickedBlocks`settled
      reads idiomClickedBlocks`x, idiomClickedBlocks`y
    {
      if blk.glyph == [expected] then
        && idiomClickedBlocks == was + [blk]
        && idiomClickIndex == old(idiomClickIndex) + 1
        && (if idiomTarget.Some? && idiomClickIndex == |idiomTarget.value| then
              && LaidOut() && score == old(score) + 10 * level
              && rightCount == old(rightCount) + 1 && idiomSuccessUntil == now + 1000
            else
              && score == old(score) && rightCount == old(rightCount)
              && idiomSuccessUntil == old(idiomSuccessUntil))
      else
        && idiomClickedBlocks == [] && idiomClickIndex == 0
        && score == old(score) && rightCount == old(rightCount)
        && idiomSuccessUntil == old(idiomSuccessUntil)
        && Released(was)
    }

    method Pick(blk: Block, now: int)
      requires Valid() && ClickOpen() && blk in currentBlocks
      requires !blk.settled && blk !in idiomClickedBlocks
      modifies this`idiomClickedBlocks, this`idiomClickIndex, this`score, this`rightCount
      modifies this`usedChars, this`idiomSuccessUntil
      modifies currentBlocks`settled, currentBlocks`x, currentBlocks`y
      modifies idiomClickedBlocks`settled, idiomClickedBlocks`x, idiomClickedBlocks`y
      ensures Valid() && usedChars == old(usedChars)
      ensures ClickHandled(blk, old(idiomTarget.value[idiomClickIndex]), old(idiomClickedBlocks), now)
    {
      var expected := idiomTarget.value[idiomClickIndex];
      if blk.glyph == [expected] {
        Advance(blk, now);
      } else {
        Release();
      }
    }

    /** The right character clicked: it joins the sequence, and a complete
        sequence is laid out and scored. */
    method Advance(blk: Block, now: int)
      requires Valid() && ClickOpen() && blk in currentBlocks
      requires blk !in idiomClickedBlocks && blk.glyph == [idiomTarget.value[idiomClickIndex]]
      modifies this`idiomClickedBlocks, this`idiomClickIndex, this`score, this`rightCount
      modifies this`usedChars, this`idiomSuccessUntil
      modifies currentBlocks`settled, currentBlocks`x, currentBlocks`y
      modifies idiomClickedBlocks`settled, idiomClickedBlocks`x, idiomClickedBlocks`y
      ensures Valid() && usedChars == old(usedChars)
      ensures idiomClickedBlocks == old(idiomClickedBlocks) + [blk]
      ensures idiomClickIndex == old(idiomClickIndex) + 1
      ensures idiomClickIndex == |idiomTarget.value| ==>
        && LaidOut() && score == old(score) + 10 * level
        && rightCount == old(rightCount) + 1 && idiomSuccessUntil == now + 1000
      ensures idiomClickIndex < |idiomTarget.value| ==>
        && score == old(score) && rightCount == old(rightCount)
        && idiomSuccessUntil == old(idiomSuccessUntil)
    {
      idiomClickedBlocks := idiomClickedBlocks + [blk];
      idiomClickIndex := idiomClickIndex + 1;
      if idiomClickIndex >= |idiomTarget.value| {
        Complete(blk.size, now);
      }
    }

    /** The last character clicked: the recheck of the whole sequence always
        passes here, so the completed idiom is laid out and scored. */
    method Complete(size: int, now: int)
      requires Valid() && mode == Some(Idiom) && idiomTarget.Some? && size == grid.cell
      requires idiomClickIndex >= |idiomTarget.value|
      modifies this`score, this`rightCount, this`usedChars, this`idiomSuccessUntil
      modifies idiomClickedBlocks`settled, idiomClickedBlocks`x, idiomClickedBlocks`y
      ensures Valid() && LaidOut() && usedChars == old(usedChars)
      ensures score == old(score) + 10 * level && rightCount == old(rightCount) + 1
      ensures idiomSuccessUntil == now + 1000
    {
      var allCorrect := RecheckClicks();
      if allCorrect {
        // The layout touches only the clicked blocks and the award only the
        // counters, so the two commute.
        AwardPoints();
        idiomSuccessUntil := now + 1000;
        LayOut(size);
      } else {
        assert false;
      }
    }

    /** The canvas click handler (the click or touch position is given in
        canvas pixels): outside an open IDIOM round, or away from every
        pickable block, nothing changes; otherwise the first pickable block
        under the point is taken. */
    method OnCanvasClick(px: int, py: int, now: int)
      requires Valid()
      modifies this`idiomClickedBlocks, this`idiomClickIndex, this`score, this`rightCount
      modifies this`usedChars, this`idiomSuccessUntil
      modifies currentBlocks`settled, currentBlocks`x, currentBlocks`y
      modifies idiomClickedBlocks`settled, idiomClickedBlocks`x, idiomClickedBlocks`y
      ensures Valid() && usedChars == old(usedChars)
      ensures !old(ClickOpen()) || old(FirstPickable(px, py, 0)).None? ==>
        unchanged(this) && unchanged(currentBlocks) && unchanged(old(idiomClickedBlocks))
      ensures old(ClickOpen()) && old(FirstPickable(px, py, 0)).Some? ==>
        ClickHandled(old(currentBlocks[FirstPickable(px, py, 0).value]),
                     old(idiomTarget.value[idiomClickIndex]), old(idiomClickedBlocks), now)
    {
      if mode != Some(Idiom) || !Truthy(idiomTarget) {
        return;
      }
      if idiomClickIndex >= |idiomTarget.value| || idiomSuccessUntil > 0 {
        return;
      }
      var hit := FirstHit(px, py);
      if hit.Some? {
        Pick(currentBlocks[hit.value], now);
      }
    }

    // -------------------------------------------------------------------
    // The frame update

    /** Where `update` puts a falling block at (x, y) this frame, and whether
        it lands there: on the floor when its bottom reaches it; on top of the
        row below its bottom edge when that row holds a glyph under it; `step`
        lower when the grid accepts that square; otherwise snapped up to the
        top of its own row.  Wherever it ends, it stays inside the playfield. */
    ghost function Drop(x: int, y: int, size: int, step: int): (r: (bool, int))
      requires grid.Valid() && grid.rows >= 1 && size == grid.cell && step >= 0
      requires grid.top <= y && y + size <= grid.top + grid.height
      reads grid.occupied
      ensures grid.top <= r.1 && r.1 + size <= grid.top + grid.height
    {
      var bottom := y + size;
      var maxBottom := grid.top + grid.height;
      if bottom >= maxBottom then (true, maxBottom - size)
      else
        var row := (bottom - grid.top) / grid.cell;
        assert 0 <= row;
        var rc := Rect(x, y, size, size);
        if row < grid.rows - 1 && grid.RowBlocked(row + 1, grid.FirstCol(rc), grid.LastCol(rc)) then
          grid.RowInside(row);
          assert (row + 1) * grid.cell - size == row * grid.cell;
          (true, grid.top + (row + 1) * grid.cell - size)
        else if grid.Accepts(Rect(x, y + step, size, size)) then (false, y + step)
        else
          grid.RowInside(grid.SettleRow(y));
          (true, grid.top + grid.SettleRow(y) * grid.cell)
    }

    /** The position step of `update` for one unsettled block. */
    method NextY(blk: Block, step: int) returns (landed: bool, y': int)
      requires Settings() && BlockOk(blk) && step >= 0
      ensures (landed, y') == Drop(blk.x, blk.y, blk.size, step)
    {
      var bottom := blk.y + blk.size;
      var maxBottom := grid.top + grid.height;
      if bottom >= maxBottom {
        return true, maxBottom - blk.size;
      }
      var c0 := Max(0, (blk.x - grid.left) / grid.cell);
      var c1 := Min(grid.cols - 1, (blk.x + blk.size - 1 - grid.left) / grid.cell);
      var row := (bottom - grid.top) / grid.cell;
      if row < grid.rows - 1 {
        var blocked := grid.ScanRow(row + 1, c0, c1);
        if blocked {
          return true, grid.top + (row + 1) * grid.cell - blk.size;
        }
      }
      var ok := grid.CanMove(Rect(blk.x, blk.y + step, blk.size, blk.size));
      if ok {
        return false, blk.y + step;
      }
      return true, grid.top + grid.SettleRow(blk.y) * grid.cell;
    }

    /** A ROTATE block landing the right way up. */
    ghost predicate Upright(blk: Block)
      reads this`mode, blk`angle
    {
      mode == Some(Rotate) && blk.angle % 360 == 0
    }

    /** The grid gained `blk`'s glyph in the cell of its top-left corner and
        nothing else. */
    twostate predicate SettledInGrid(blk: Block)
      requires grid.Valid() && grid.rows >= 1 && grid.cols >= 1
      reads grid.occupied, blk`x, blk`y
    {
      && grid.occupied[grid.SettleRow(blk.y), grid.SettleCol(blk.x)] == Some(blk.glyph)
      && forall r, c ::
           (0 <= r < grid.rows && 0 <= c < grid.cols &&
            (r, c) != (grid.SettleRow(blk.y), grid.SettleCol(blk.x))) ==>
           grid.occupied[r, c] == old(grid.occupied[r, c])
    }

    /** The score after a block came to rest: `10 * level` more when it
        landed the right way up in ROTATE (`upright`), the same otherwise. */
    twostate predicate LandScored(upright: bool)
      reads this
    {
      score == old(score) + (if upright then 10 * level else 0)
    }

    /** The grid after `blk` came to rest: untouched when it landed the right
        way up in ROTATE (`upright`), holding its glyph otherwise. */
    twostate predicate LandWritten(blk: Block, upright: bool)
      requires grid.Valid() && grid.rows >= 1 && grid.cols >= 1
      reads grid.occupied, blk`x, blk`y
    {
      if upright then unchanged(grid.occupied) else SettledInGrid(blk)
    }

    /** A block comes to rest.  An upright ROTATE block scores and a new
        round starts, leaving the grid alone; any other block is written into
        the grid and leaves the field, and a new round starts in ROTATE and
        PINYIN, or in IDIOM once no block is left. */
    method Land(blk: Block)
      requires Valid() && mode.Some? && blk in currentBlocks
      modifies this, grid.occupied, blk`settled
      ensures Valid() && blk.settled && mode == old(mode) && level == old(level) && keys == old(keys)
      ensures forall b :: b in old(currentBlocks) && b != blk ==> b in currentBlocks
      ensures old(Upright(blk)) ==>
        && score == old(score) + 10 * level && rightCount == old(rightCount) + 1
        && unchanged(grid.occupied) && RoundStarted()
      ensures !old(Upright(blk)) ==>
        && score == old(score) && rightCount == old(rightCount) && SettledInGrid(blk)
      ensures !old(Upright(blk)) && (CharMode(mode) || Without(old(currentBlocks), blk) == []) ==>
        RoundStarted()
      ensures !old(Upright(blk)) && !(CharMode(mode) || Without(old(currentBlocks), blk) == []) ==>
        && currentBlocks == Without(old(currentBlocks), blk)
        && idiomClickedBlocks == old(idiomClickedBlocks) && idiomTarget == old(idiomTarget)
        && idiomSuccessUntil == old(idiomSuccessUntil)
    {
      blk.settled := true;
      if mode == Some(Rotate) && blk.angle % 360 == 0 {
        ScoreUpright();
      } else {
        Bury(blk);
      }
    }

    /** The upright ROTATE block scores and the next round starts. */
    method ScoreUpright()
      requires Valid() && mode == Some(Rotate)
      modifies this
      ensures Valid() && mode == old(mode) && level == old(level) && keys == old(keys)
      ensures score == old(score) + 10 * level && rightCount == old(rightCount) + 1
      ensures RoundStarted()
    {
      AwardPoints();
      currentBlocks := [];
      SpawnRound();
    }

    /** Any other landing block is written into the grid and leaves the field. */
    method Bury(blk: Block)
      requires Valid() && mode.Some? && blk in currentBlocks
      modifies this, grid.occupied
      ensures Valid() && mode == old(mode) && level == old(level) && keys == old(keys)
      ensures forall b :: b in old(currentBlocks) && b != blk ==> b in currentBlocks
      ensures score == old(score) && rightCount == old(rightCount) && SettledInGrid(blk)
      ensures CharMode(mode) || Without(old(currentBlocks), blk) == [] ==> RoundStarted()
      ensures !(CharMode(mode) || Without(old(currentBlocks), blk) == []) ==>
        && currentBlocks == Without(old(currentBlocks), blk)
        && idiomClickedBlocks == old(idiomClickedBlocks) && idiomTarget == old(idiomTarget)
        && idiomSuccessUntil == old(idiomSuccessUntil)
    {
      grid.Settle(blk);
      WithoutFacts(currentBlocks, blk);
      FewBlocks();
      currentBlocks := Without(currentBlocks, blk);
      if CharMode(mode) || currentBlocks == [] {
        SpawnRound();
      }
    }

    /** One block's turn in the frame loop: settled blocks are skipped; a
        falling one moves to where `Drop` puts it and lands there if `Drop`
        says so. */
    method StepBlock(blk: Block, step: int)
      requires Valid() && (blk in currentBlocks || blk.settled) && step >= 0
      modifies this, grid.occupied, blk`y, blk`settled
      ensures Valid() && mode == old(mode) && level == old(level) && score >= old(score)
      ensures keys == old(keys)
      ensures forall b :: b in old(currentBlocks) && b != blk ==> b in currentBlocks
      ensures old(blk.settled) ==> unchanged(this) && unchanged(grid.occupied) && unchanged(blk)
      ensures !old(blk.settled) ==> blk.y == old(Drop(blk.x, blk.y, blk.size, step)).1
      ensures !old(blk.settled) ==> blk.settled == old(Drop(blk.x, blk.y, blk.size, step)).0
      ensures !old(blk.settled) && !old(Drop(blk.x, blk.y, blk.size, step)).0 ==>
        unchanged(this) && unchanged(grid.occupied)
      ensures Stepped(blk, step)
      ensures Landed(blk) ==> LandScored(old(Upright(blk))) && LandWritten(blk, old(Upright(blk)))
    {
      if blk.settled {
        return;
      }
      // The IDIOM skip of a completed click sequence needs every clicked
      // block settled, this one among them, so it never applies here.
      if mode == Some(Idiom) && blk in idiomClickedBlocks &&
         idiomClickIndex >= |idiomTarget.value| &&
         (forall b :: b in idiomClickedBlocks ==> b.settled) {
        assert false;
      }
      var landed, y' := NextY(blk, step);
      blk.y := y';
      if landed {
        Land(blk);
      }
    }

    /** Where `Drop` puts each of the blocks `bs`, on the grid as it stands. */
    ghost function DropsOf(bs: seq<Block>, step: int): (r: seq<(bool, int)>)
      requires Settings() && step >= 0 && forall j :: 0 <= j < |bs| ==> BlockOk(bs[j])
      reads this`level, this`mode, grid.occupied, bs
      ensures |r| == |bs|
      ensures forall j :: 0 <= j < |bs| ==> BlockOk(bs[j]) && r[j] == Drop(bs[j].x, bs[j].y, bs[j].size, step)
    {
      if bs == [] then [] else assert BlockOk(bs[0]); [Drop(bs[0].x, bs[0].y, bs[0].size, step)] + DropsOf(bs[1..], step)
    }

    /** How far the frame loop has got over the snapshot `s`, whose blocks
        stood at `p0` when the frame began: blocks from `i` on are untouched;
        blocks before `i` took their step; `first` is the first of them to
        land (`i` while none has), and it and the falling blocks before it
        ended where `d` said. */
    ghost predicate Progress(s: seq<Block>, p0: seq<(int, int, bool)>, d: seq<(bool, int)>,
                             step: int, i: int, first: int)
      reads s
    {
      && |p0| == |s| && |d| == |s| && 0 <= first <= i <= |s|
      && (forall j :: 0 <= j < |s| ==> s[j].x == p0[j].0)
      && (forall j :: i <= j < |s| ==> s[j].y == p0[j].1 && s[j].settled == p0[j].2)
      && (forall j :: 0 <= j < i ==>
            if p0[j].2 then s[j].y == p0[j].1 && s[j].settled
            else s[j].settled || s[j].y == p0[j].1 + step)
      && (forall j :: 0 <= j < first ==> p0[j].2 || (!s[j].settled && (false, s[j].y) == d[j]))
      && (first < i ==> !p0[first].2 && s[first].settled && (true, s[first].y) == d[first])
    }

    /** `Progress`, one clause at a time. */
    lemma ProgressFold(s: seq<Block>, p0: seq<(int, int, bool)>, d: seq<(bool, int)>,
                       step: int, i: int, first: int)
      requires |p0| == |s| && |d| == |s| && 0 <= first <= i <= |s|
      requires forall j :: 0 <= j < |s| ==> s[j].x == p0[j].0
      requires forall j :: i <= j < |s| ==> s[j].y == p0[j].1 && s[j].settled == p0[j].2
      requires forall j :: 0 <= j < i ==>
        if p0[j].2 then s[j].y == p0[j].1 && s[j].settled else s[j].settled || s[j].y == p0[j].1 + step
      requires forall j :: 0 <= j < first ==> p0[j].2 || (!s[j].settled && (false, s[j].y) == d[j])
      requires first < i ==> !p0[first].2 && s[first].settled && (true, s[first].y) == d[first]
      ensures Progress(s, p0, d, step, i, first)
    {
    }

    /** One pass of the frame loop: block `i` of the snapshot takes its step. */
    method TakeTurn(s: seq<Block>, ghost p0: seq<(int, int, bool)>, ghost d: seq<(bool, int)>,
                    step: int, i: int, blk: Block, ghost first: int)
      returns (ghost first': int)
      requires Valid() && step >= 0 && Distinct(s) && 0 <= i < |s| && blk == s[i]
      requires Progress(s, p0, d, step, i, first)
      requires forall j :: i <= j < |s| ==> s[j] in currentBlocks || s[j].settled
      requires first == i && !p0[i].2 ==> blk in currentBlocks && Drop(blk.x, blk.y, blk.size, step) == d[i]
      modifies this, grid.occupied, blk`y, blk`settled
      ensures Valid() && mode == old(mode) && level == old(level) && score >= old(score)
      ensures keys == old(keys)
      ensures Progress(s, p0, d, step, i + 1, first')
      ensures forall j :: i < j < |s| ==> s[j] in currentBlocks || s[j].settled
      ensures first' == i + 1 ==> first == i && unchanged(this) && unchanged(grid.occupied)
      ensures Landed(blk) ==> LandScored(old(Upright(blk))) && LandWritten(blk, old(Upright(blk)))
    {
      StepBlock(blk, step);
      first' := if first == i && (p0[i].2 || !blk.settled) then i + 1 else first;
      ProgressFold(s, p0, d, step, i + 1, first');
    }

    /** The loop of `update` over the blocks falling when the frame began, a
        snapshot that landings do not shorten: every block takes its step.
        `first` is the position of the first block to land (the snapshot's
        length when none does).  Up to and including it the grid is the one
        the frame began with, so those blocks end where `Drop` puts them on
        that grid; when no block's `Drop` lands, nothing lands and the game
        and its grid stay as they were. */
    method FallAll(step: int) returns (ghost first: nat)
      requires Valid() && step >= 0
      modifies this, grid.occupied, currentBlocks
      ensures Valid() && mode == old(mode) && level == old(level) && score >= old(score)
      ensures keys == old(keys)
      ensures forall j :: 0 <= j < |old(currentBlocks)| ==> Stepped(old(currentBlocks)[j], step)
      ensures first <= |old(currentBlocks)|
      ensures forall j :: 0 <= j < first ==> !Landed(old(currentBlocks)[j])
      ensures forall j :: 0 <= j < first && !old(currentBlocks[j].settled) ==>
        (false, old(currentBlocks)[j].y) == old(DropsOf(currentBlocks, step))[j]
      ensures first < |old(currentBlocks)| ==> Landed(old(currentBlocks)[first])
      ensures first < |old(currentBlocks)| ==>
        (true, old(currentBlocks)[first].y) == old(DropsOf(currentBlocks, step))[first]
      ensures first == |old(currentBlocks)| ==> unchanged(this) && unchanged(grid.occupied)
      ensures (forall j :: 0 <= j < |old(currentBlocks)| && !old(currentBlocks[j].settled) ==>
                 !old(DropsOf(currentBlocks, step))[j].0) ==>
        first == |old(currentBlocks)|
      ensures |old(currentBlocks)| == 1 && Landed(old(currentBlocks)[0]) ==>
        var b := old(currentBlocks)[0];
        LandScored(old(Upright(b))) && LandWritten(b, old(Upright(b)))
    {
      var snapshot := currentBlocks;
      ghost var p0 := Places(snapshot);
      first := FallLoop(snapshot, p0, DropsOf(snapshot, step), step);
      forall j | 0 <= j < |snapshot|
        ensures Stepped(snapshot[j], step)
      {
        assert p0[j] == old((snapshot[j].x, snapshot[j].y, snapshot[j].settled));
      }
    }

    /** The frame loop over `s`, the blocks falling when it starts. */
    method FallLoop(s: seq<Block>, ghost p0: seq<(int, int, bool)>, ghost d: seq<(bool, int)>, step: int)
      returns (ghost first: nat)
      requires Valid() && step >= 0 && s == currentBlocks && p0 == Places(s) && d == DropsOf(s, step)
      modifies this, grid.occupied, s
      ensures Valid() && mode == old(mode) && level == old(level) && score >= old(score)
      ensures keys == old(keys)
      ensures Progress(s, p0, d, step, |s|, first)
      ensures first == |s| ==> unchanged(this) && unchanged(grid.occupied)
      ensures |s| == 1 && Landed(s[0]) ==>
        LandScored(old(Upright(s[0]))) && LandWritten(s[0], old(Upright(s[0])))
    {
      var i := 0;
      first := 0;
      while i < |s|
        invariant i <= |s| && Distinct(s)
        invariant Valid() && mode == old(mode) && level == old(level) && score >= old(score)
        invariant keys == old(keys)
        invariant Progress(s, p0, d, step, i, first)
        invariant forall j :: i <= j < |s| ==> s[j] in currentBlocks || s[j].settled
        invariant first == i ==> unchanged(this) && unchanged(grid.occupied)
        invariant |s| == 1 && i == 0 ==> s[0].angle == old(s[0].angle)
        invariant |s| == 1 && i == 1 && Landed(s[0]) ==>
          LandScored(old(Upright(s[0]))) && LandWritten(s[0], old(Upright(s[0])))
      {
        label turn:
        first := TakeTurn(s, p0, d, step, i, s[i], first);
        if |s| == 1 && i == 0 {
          assert old@turn(score) == old(score) && old@turn(Upright(s[0])) == old(Upright(s[0]));
        }
        i := i + 1;
      }
    }

    /** The end of the frame loop: a glyph in the top row ends the game, with
        no mode, no blocks and an empty grid. */
    method CheckTop()
      requires Valid()
      modifies this`mode, this`currentBlocks, grid.occupied
      ensures Valid() && !grid.AtTop()
      ensures old(grid.AtTop()) ==> mode == None && currentBlocks == [] && grid.Empty()
      ensures !old(grid.AtTop()) ==>
        mode == old(mode) && currentBlocks == old(currentBlocks) && unchanged(grid.occupied)
    {
      var reached := grid.ReachedTop();
      if reached {
        mode := None;
        currentBlocks := [];
        grid.Clear();
      }
    }

    /** The arrow keys held in ROTATE and PINYIN move the falling block one
        cell, left first, and are consumed. */
    method Controls()
      requires Valid()
      modifies this`keys, currentBlocks`x
      ensures Valid()
      ensures keys == if currentBlocks != [] && CharMode(mode) then old(keys) - ArrowKeys else old(keys)
      ensures currentBlocks != [] && CharMode(mode) ==>
        var b := currentBlocks[0];
        var x1 := if "ArrowLeft" in old(keys) || "Left" in old(keys)
                  then Shift(old(b.x), b.y, b.size, -grid.cell) else old(b.x);
        b.x == if "ArrowRight" in old(keys) || "Right" in old(keys)
               then Shift(x1, b.y, b.size, grid.cell) else x1
      ensures currentBlocks == [] || !CharMode(mode) ==> unchanged(currentBlocks)
    {
      if currentBlocks != [] && CharMode(mode) {
        ArrowMove("ArrowLeft", "Left", -grid.cell);
        ArrowMove("ArrowRight", "Right", grid.cell);
      }
    }

    /** One arrow direction, under either of its key names: a held key moves
        the falling block by `dx` where the grid accepts it, and both names
        are released. */
    method ArrowMove(k1: string, k2: string, dx: int)
      requires Valid() && currentBlocks != [] && CharMode(mode)
      modifies this`keys, currentBlocks`x
      ensures Valid() && keys == old(keys) - {k1, k2}
      ensures currentBlocks[0].x ==
        if k1 in old(keys) || k2 in old(keys)
        then Shift(old(currentBlocks[0].x), currentBlocks[0].y, currentBlocks[0].size, dx)
        else old(currentBlocks[0].x)
    {
      if k1 in keys || k2 in keys {
        ShiftCurrent(dx);
      }
      keys := keys - {k1, k2};
    }

    /** The one-second PINYIN success pause, during which a frame does nothing. */
    predicate InPinyinDelay(now: int)
      reads this`mode, this`pinyinSuccessUntil
    {
      mode == Some(Pinyin) && pinyinSuccessUntil > 0 && now < pinyinSuccessUntil
    }

    /** A success pause of the current mode that has run out by `now`. */
    ghost predicate PauseOver(now: int)
      reads this`mode, this`pinyinSuccessUntil, this`idiomSuccessUntil
    {
      || (mode == Some(Pinyin) && pinyinSuccessUntil > 0 && now >= pinyinSuccessUntil)
      || (mode == Some(Idiom) && idiomSuccessUntil > 0 && now >= idiomSuccessUntil)
    }

    /** The end of `update`: a success pause that has run out starts the next
        round. */
    method Expire(now: int)
      requires Valid()
      modifies this
      ensures Valid() && mode == old(mode) && level == old(level) && score == old(score)
      ensures keys == old(keys)
      ensures !PauseOver(now)
      ensures old(PauseOver(now)) ==> RoundStarted()
      ensures !old(PauseOver(now)) ==> unchanged(this)
    {
      if mode == Some(Pinyin) && pinyinSuccessUntil > 0 && now >= pinyinSuccessUntil {
        currentBlocks := [];
        SpawnRound();
      }
      if mode == Some(Idiom) && idiomSuccessUntil > 0 && now >= idiomSuccessUntil {
        currentBlocks := [];
        idiomClickedBlocks := [];
        SpawnRound();
      }
    }

    /** The blocks falling when the frame began take their step, and then a
        glyph in the top row ends the game.  When no block lands, the score
        and the grid stay as they were unless the game ends. */
    method Descend(step: int)
      requires Valid() && step >= 0
      modifies this, grid.occupied, currentBlocks
      ensures Valid() && level == old(level) && score >= old(score) && !grid.AtTop()
      ensures mode == old(mode) || (mode == None && currentBlocks == [] && grid.Empty())
      ensures keys == old(keys)
      ensures forall j :: 0 <= j < |old(currentBlocks)| ==> Stepped(old(currentBlocks)[j], step)
      ensures (forall j :: 0 <= j < |old(currentBlocks)| ==> !Landed(old(currentBlocks)[j])) ==>
        score == old(score) && (unchanged(grid.occupied) || (mode == None && grid.Empty()))
      ensures |old(currentBlocks)| == 1 && Landed(old(currentBlocks)[0]) ==>
        var b := old(currentBlocks)[0];
        LandScored(old(Upright(b))) && (LandWritten(b, old(Upright(b))) || (mode == None && grid.Empty()))
    {
      ghost var first := FallAll(step);
      CheckTop();
    }

    /** The body of `update` outside the PINYIN success pause, with the
        on-screen down button held or not: the arrow keys move the falling
        block, then `Descend` with the fast step while down or the down arrow
        is held. */
    method PlayFrame(down: bool)
      requires Valid()
      modifies this, grid.occupied, currentBlocks
      ensures Valid() && level == old(level) && score >= old(score) && !grid.AtTop()
      ensures mode == old(mode) || (mode == None && currentBlocks == [] && grid.Empty())
      ensures keys == if old(currentBlocks) != [] && CharMode(old(mode)) then old(keys) - ArrowKeys else old(keys)
      ensures var step := FrameStep(old(mode), down || "ArrowDown" in old(keys) || "Down" in old(keys));
        forall j :: 0 <= j < |old(currentBlocks)| ==> Stepped(old(currentBlocks)[j], step)
      ensures (forall j :: 0 <= j < |old(currentBlocks)| ==> !Landed(old(currentBlocks)[j])) ==>
        score == old(score) && (unchanged(grid.occupied) || (mode == None && grid.Empty()))
      ensures |old(currentBlocks)| == 1 && Landed(old(currentBlocks)[0]) ==>
        var b := old(currentBlocks)[0];
        LandScored(old(Upright(b))) && (LandWritten(b, old(Upright(b))) || (mode == None && grid.Empty()))
    {
      DownKeysKept(keys);
      Controls();
      var fast := down || "ArrowDown" in keys || "Down" in keys;
      Descend(FrameStep(mode, fast));
    }

    /** `update`, once per animation frame at time `now`, with the on-screen
        down button held or not: outside the PINYIN success pause the frame
        is played as `PlayFrame` says; then a success pause that has run out
        starts the next round. */
    method Update(now: int, down: bool)
      requires Valid()
      modifies this, grid.occupied, currentBlocks
      ensures Valid() && level == old(level) && score >= old(score)
      ensures mode == old(mode) || (mode == None && currentBlocks == [] && grid.Empty())
      ensures old(InPinyinDelay(now)) ==>
        unchanged(this) && unchanged(grid.occupied) && unchanged(currentBlocks)
      ensures !old(InPinyinDelay(now)) ==> !grid.AtTop()
      ensures !PauseOver(now)
      ensures keys == if !old(InPinyinDelay(now)) && old(currentBlocks) != [] && CharMode(old(mode))
                      then old(keys) - ArrowKeys else old(keys)
      ensures !old(InPinyinDelay(now)) ==>
        var step := FrameStep(old(mode), down || "ArrowDown" in old(keys) || "Down" in old(keys));
        forall j :: 0 <= j < |old(currentBlocks)| ==> Stepped(old(currentBlocks)[j], step)
      ensures !old(InPinyinDelay(now)) && (forall j :: 0 <= j < |old(currentBlocks)| ==> !Landed(old(currentBlocks)[j])) ==>
        score == old(score) && (unchanged(grid.occupied) || (mode == None && grid.Empty()))
      ensures !old(InPinyinDelay(now)) && |old(currentBlocks)| == 1 && Landed(old(currentBlocks)[0]) ==>
        var b := old(currentBlocks)[0];
        LandScored(old(Upright(b))) && (LandWritten(b, old(Upright(b))) || (mode == None && grid.Empty()))
    {
      if !InPinyinDelay(now) {
        PlayFrame(down);
      }
      Expire(now);
    }

    method SpawnCharacter()
      requires Settings() && CharMode(mode) && currentBlocks == []
      requires currentChar == None && currentPinyin == None
      modifies this`currentBlocks, this`currentChar, this`currentPinyin, this`usedChars, this`drawn
      ensures CharSpawned(LevelData(charLevels, level), mode == Some(Rotate), old(usedChars), old(drawn))
      ensures |currentBlocks| <= 1 && Distinct(currentBlocks) && usedChars <= old(usedChars)
      ensures currentBlocks != [] <==> LevelData(charLevels, level) != []
      ensures currentChar.Some? <==> currentBlocks != []
      ensures forall b :: b in currentBlocks ==> fresh(b) && !b.settled && BlockOk(b)
    {
      var ds := LevelData(charLevels, level);
      if ds == [] {
        return;
      }
      var p := PickChar(ds, usedChars, mode == Some(Rotate), grid.cols, rand, drawn);
      if p.resetUsed {
        usedChars := {};
      }
      var size := grid.cell;
      SpawnXInside(sidebarW, grid.width, size, p.col);
      grid.RowInside(0);
      var x := sidebarW + p.col * size;
      var b := new Block(Min(x, sidebarW + grid.width - size), 0, size, p.entry.glyph, p.angle);
      currentBlocks := [b];
      currentChar := Some(p.entry.glyph);
      currentPinyin := Some(p.entry.pinyin);
      drawn := p.next;
    }

    method SpawnIdiom()
      requires Settings() && mode == Some(Idiom) && currentBlocks == [] && idiomTarget == None
      modifies this`currentBlocks, this`idiomTarget, this`drawn
      ensures IdiomSpawned(LevelData(idiomLevels, level), old(drawn))
      ensures Distinct(currentBlocks) && |currentBlocks| <= 4
      ensures idiomTarget.Some? <==> LevelData(idiomLevels, level) != []
      ensures forall b :: b in currentBlocks ==> fresh(b) && !b.settled && BlockOk(b)
    {
      var idioms := LevelData(idiomLevels, level);
      if idioms == [] {
        return;
      }
      var r := Deal(idioms, grid.cols, Splice, rand, drawn);
      PlaceIdiom(r);
    }

    /** The dealt idiom becomes the target and its blocks the falling ones. */
    method PlaceIdiom(r: IdiomDeal)
      requires Settings() && |r.cols| == 4 && forall k :: 0 <= k < 4 ==> 0 <= r.cols[k] < grid.cols
      modifies this`currentBlocks, this`idiomTarget, this`drawn
      ensures IdiomPlaced(r) && Distinct(currentBlocks) && |currentBlocks| <= 4
      ensures forall b :: b in currentBlocks ==> fresh(b) && !b.settled && BlockOk(b)
    {
      var made := IdiomBlocks(r);
      idiomTarget := Some(r.target);
      currentBlocks := made;
      drawn := r.next;
    }

    /** New blocks for the first four dealt characters, at the top of their
        drawn columns. */
    method IdiomBlocks(r: IdiomDeal) returns (made: seq<Block>)
      requires Settings() && |r.cols| == 4 && forall k :: 0 <= k < 4 ==> 0 <= r.cols[k] < grid.cols
      ensures Placed(made, r) && Distinct(made)
      ensures forall b :: b in made ==> fresh(b) && !b.settled && BlockOk(b)
    {
      var size := grid.cell;
      grid.RowInside(0);
      var n := Min(|r.chars|, 4);
      made := [];
      var i := 0;
      while i < n
        invariant 0 <= i <= n && |made| == i
        invariant Distinct(made)
        invariant forall k :: 0 <= k < i ==>
          && fresh(made[k]) && !made[k].settled && BlockOk(made[k])
          && made[k].glyph == [r.chars[k]]
          && made[k].x == sidebarW + r.cols[k] * grid.cell
          && made[k].y == grid.top && made[k].angle == 0
      {
        var col := r.cols[i];
        SpawnXInside(sidebarW, grid.width, size, col);
        var b := new Block(sidebarW + col * size, 0, size, [r.chars[i]], 0);
        made := made + [b];
        i := i + 1;
      }
    }

    /** `spawnRound`: reset the round's typing and clicking state, then place
        the next character or the next idiom. */
    method SpawnRound()
      requires Settings() && mode.Some?
      modifies this`currentBlocks, this`currentChar, this`currentPinyin, this`typed
      modifies this`idiomTarget, this`idiomClickIndex, this`idiomClickedBlocks
      modifies this`idiomSuccessUntil, this`pinyinSuccessUntil, this`usedChars, this`drawn
      modifies this`roundBlocks
      ensures Valid() && RoundStarted()
      ensures forall b :: b in currentBlocks ==> fresh(b)
      ensures usedChars <= old(usedChars)
      ensures mode == Some(Idiom) ==> usedChars == old(usedChars)
    {
      SpawnBlocks();
      roundBlocks := currentBlocks;
    }

    /** The body of `spawnRound` without the ghost bookkeeping. */
    method SpawnBlocks()
      requires Settings() && mode.Some?
      modifies this`currentBlocks, this`currentChar, this`currentPinyin, this`typed
      modifies this`idiomTarget, this`idiomClickIndex, this`idiomClickedBlocks
      modifies this`idiomSuccessUntil, this`pinyinSuccessUntil, this`usedChars, this`drawn
      ensures typed == "" && idiomClickIndex == 0 && idiomClickedBlocks == []
      ensures idiomSuccessUntil == 0 && pinyinSuccessUntil == 0
      ensures Distinct(currentBlocks) && |currentBlocks| <= (if CharMode(mode) then 1 else 4)
      ensures forall b :: b in currentBlocks ==> fresh(b) && !b.settled && BlockOk(b)
      ensures CharMode(mode) ==>
        && idiomTarget == None
        && (currentBlocks != [] <==> LevelData(charLevels, level) != [])
        && (currentChar.Some? <==> currentBlocks != [])
      ensures mode == Some(Idiom) ==>
        && currentChar == None && currentPinyin == None && usedChars == old(usedChars)
        && (idiomTarget.Some? <==> LevelData(idiomLevels, level) != [])
      ensures usedChars <= old(usedChars)
    {
      ClearRound();
      if CharMode(mode) {
        SpawnCharacter();
      } else {
        SpawnIdiom();
      }
    }

    /** The reset at the head of `spawnRound`: no blocks, no character or
        idiom, nothing typed or clicked, no success message showing. */
    method ClearRound()
      modifies this`currentBlocks, this`currentChar, this`currentPinyin, this`typed
      modifies this`idiomTarget, this`idiomClickIndex, this`idiomClickedBlocks
      modifies this`idiomSuccessUntil, this`pinyinSuccessUntil
      ensures currentBlocks == [] && currentChar == None && currentPinyin == None
      ensures typed == "" && idiomTarget == None && idiomClickIndex == 0
      ensures idiomClickedBlocks == [] && idiomSuccessUntil == 0 && pinyinSuccessUntil == 0
    {
      currentBlocks := [];
      currentChar := None;
      currentPinyin := None;
      typed := "";
      idiomTarget := None;
      idiomClickIndex := 0;
      idiomClickedBlocks := [];
      idiomSuccessUntil := 0;
      pinyinSuccessUntil := 0;
    }
  }
}
