/**
The powerup variable field in flash (powerupOption.cpp): VarNum words and their exclusive-or,
rewritten as a whole through a shadow copy. The claim is about every run: after each write
the field verifies and holds exactly the values written last.
*/
module PowerupStore {
  import opened Prelude
  import opened Words
  import opened Flash

  /** VarNum, VAR_NUM_OF_VAR, MAX_VAR_NUM_FUTURE, POWERUP_VAR_ADDR and its word in the flash */
  const VARS := 11
  const COUNT := 1
  const MAX_FUTURE := 256
  const FIELD := 0x080F_C000
  const AT := 0x3_F000
  const FIELD_SECTOR := 11

  /** DEFAULT_POWERUP_VAL */
  const DEFAULTS: seq<Word> := [0x5555_AAAA, 11, 0x0003_FFFF, 0, 0, 0, 0x0803_FF00, 0, 0, 0, 0]

  function Xor(s: seq<Word>): Word {
    if s == [] then 0 else Xor2(Xor(s[..|s| - 1]), s[|s| - 1])
  }

  /** The check catches every change of a single word. */
  lemma {:induction false} XorSeesChange(s: seq<Word>, i: nat, v: Word)
    requires i < |s|
    ensures Xor(s[i := v]) == Xor(s) <==> v == s[i]
  {
    var n := |s| - 1;
    if i == n {
      assert s[i := v][..n] == s[..n];
      BitXorCancels(v, s[n], Xor(s[..n]));
    } else {
      assert s[i := v][..n] == s[..n][i := v];
      XorSeesChange(s[..n], i, v);
      BitXorCancels(Xor(s[..n][i := v]), Xor(s[..n]), s[n]);
    }
  }

  lemma SecondPlace()
    ensures SectorOf(FIELD + 4 * VARS) == FIELD_SECTOR && (FIELD + 4 * VARS - BASE) / 4 == AT + VARS
  {
  }

  lemma FieldPlace()
    ensures AddressOf(AT) == FIELD && SectorOf(FIELD) == FIELD_SECTOR
    ensures forall w :: AT <= w <= AT + MAX_FUTURE ==> SectorOf(AddressOf(w)) == FIELD_SECTOR
  {
  }

  /** The number of variables to go by, given the stored count. */
  function Suit(count: Word): (n: nat)
    ensures n <= MAX_FUTURE
  {
    if count > MAX_FUTURE then VARS else count
  }

  /** A field of `n` variables with its check word, on flash that is erased behind it. */
  predicate FreshField(field: seq<Word>, vars: seq<Word>)
    requires |field| == MAX_FUTURE + 1 && |vars| < MAX_FUTURE
  {
    && field[..|vars|] == vars && field[|vars|] == Xor(vars)
    && forall i :: |vars| < i <= MAX_FUTURE ==> field[i] == ONES
  }

  lemma SliceIn(words: seq<Word>, at: nat, n: nat, m: nat)
    requires n <= m && at + m <= |words|
    ensures words[at..at + m][..n] == words[at..at + n]
  {
  }

  lemma FreshSlice(words: seq<Word>, at: nat, vars: seq<Word>, check: Word, field: seq<Word>)
    requires |vars| <= VARS && at + MAX_FUTURE < |words| && field == words[at..at + MAX_FUTURE + 1]
    requires words[at..at + |vars| + 1] == vars + [check]
    ensures field[..|vars|] == vars && field[|vars|] == check && words[at..at + |vars|] == vars
  {
    var n := |vars|;
    SliceIn(words, at, n, n + 1);
    SliceIn(words, at, n, MAX_FUTURE + 1);
    SliceIn(words, at, n + 1, MAX_FUTURE + 1);
    assert (vars + [check])[..n] == vars;
    assert field[..n + 1] == vars + [check] && (vars + [check])[n] == check;
    assert field[n] == field[..n + 1][n];
  }

  lemma BlankSlice(words: seq<Word>, at: nat, n: nat, field: seq<Word>)
    requires n <= VARS && at + MAX_FUTURE < |words| && field == words[at..at + MAX_FUTURE + 1]
    requires forall w :: at + n < w <= at + MAX_FUTURE ==> words[w] == ONES
    ensures forall i :: n < i <= MAX_FUTURE ==> field[i] == ONES
  {
    forall i | n < i <= MAX_FUTURE
      ensures field[i] == ONES
    {
      assert field[i] == words[at + i];
    }
  }

  lemma FreshFieldOf(words: seq<Word>, vars: seq<Word>)
    requires |vars| <= VARS && |words| == SIZE / 4 && words[AT..AT + |vars| + 1] == vars + [Xor(vars)]
    requires forall w :: AT + |vars| < w <= AT + MAX_FUTURE ==> words[w] == ONES
    ensures FreshField(words[AT..AT + MAX_FUTURE + 1], vars) && words[AT..AT + |vars|] == vars
  {
    var field := words[AT..AT + MAX_FUTURE + 1];
    FreshSlice(words, AT, vars, Xor(vars), field);
    BlankSlice(words, AT, |vars|, field);
  }

  lemma XorStep(field: seq<Word>, n: nat)
    requires 0 < n <= |field|
    ensures Xor(field[..n]) == Xor2(Xor(field[..n - 1]), field[n - 1])
  {
    assert field[..n][..n - 1] == field[..n - 1];
  }

  lemma XorOfEqual(x: Word)
    ensures Xor2(x, x) == 0 && Xor2(0, x) == x
  {
    BitXorUnits(x);
  }

  predicate BlankFrom(words: seq<Word>, n: nat)
    requires |words| == SIZE / 4
  {
    forall w :: AT + n <= w <= AT + MAX_FUTURE ==> words[w] == ONES
  }

  lemma FieldHoldsIn(vars: seq<Word>, words: seq<Word>, field: seq<Word>, front: seq<Word>)
    requires |vars| <= VARS && |words| == SIZE / 4 && words[AT..AT + |vars| + 1] == vars + [Xor(vars)]
    requires BlankFrom(words, |vars| + 1)
    requires field == words[AT..AT + MAX_FUTURE + 1] && front == words[AT..AT + |vars|]
    ensures |field| == MAX_FUTURE + 1 && FreshField(field, vars) && front == vars
  {
    FreshFieldOf(words, vars);
  }

  /** Behind variables and their check word, equal words take turns in cancelling each other. */
  lemma {:induction false} XorBehind(field: seq<Word>, vars: seq<Word>, n: nat, fill: Word)
    requires |vars| < n <= |field| && field[..|vars|] == vars && field[|vars|] == Xor(vars)
    requires forall i :: |vars| < i < n ==> field[i] == fill
    ensures Xor(field[..n]) == if (n - |vars|) % 2 == 1 then 0 else fill
    decreases n
  {
    XorStep(field, n);
    if n == |vars| + 1 {
      XorOfEqual(Xor(vars));
    } else {
      XorBehind(field, vars, n - 1, fill);
      XorOfEqual(fill);
    }
  }

  /** A freshly written field under another count than its own still verifies in exactly these cases. */
  predicate VerifiesAs(field: seq<Word>, vars: seq<Word>, count: Word)
    requires |field| == MAX_FUTURE + 1 && |vars| < MAX_FUTURE
  {
    || count == |vars| > 0
    || (|vars| < count <= MAX_FUTURE && (count - |vars|) % 2 == 0)
    || (1 <= count < |vars| && Xor(vars[..count]) == vars[count])
  }

  lemma OtherCount(field: seq<Word>, vars: seq<Word>, count: Word)
    requires |field| == MAX_FUTURE + 1 && |vars| < MAX_FUTURE && FreshField(field, vars)
    ensures 1 <= count <= MAX_FUTURE && Xor(field[..count]) == field[count] <==> VerifiesAs(field, vars, count)
  {
    if |vars| < count <= MAX_FUTURE {
      XorBehind(field, vars, count, ONES);
    } else if count < |vars| {
      assert field[..count] == vars[..count] && field[count] == vars[count];
    }
  }

  // ---------------------------------------------------------------- the field as a value

  function Fresh(vars: seq<Word>): (f: seq<Word>)
    requires |vars| < MAX_FUTURE
    ensures |f| == MAX_FUTURE + 1 && FreshField(f, vars)
  {
    var f := seq(MAX_FUTURE + 1, i requires 0 <= i =>
                   if i < |vars| then vars[i] else if i == |vars| then Xor(vars) else ONES);
    assert f[..|vars|] == vars;
    f
  }

  lemma FreshIs(f: seq<Word>, vars: seq<Word>)
    requires |f| == MAX_FUTURE + 1 && |vars| < MAX_FUTURE && FreshField(f, vars)
    ensures f == Fresh(vars)
  {
    forall i | 0 <= i < |f|
      ensures f[i] == Fresh(vars)[i]
    {
      if i < |vars| {
        assert f[i] == f[..|vars|][i] == vars[i];
      }
    }
  }

  predicate Verifies(f: seq<Word>)
    requires |f| == MAX_FUTURE + 1
  {
    1 <= f[COUNT] <= MAX_FUTURE && Xor(f[..f[COUNT]]) == f[f[COUNT]]
  }

  /** The field after an operation; none if that copies more variables than the shadow array holds. */
  function Step(f: seq<Word>, op: Op): (g: Option<seq<Word>>)
    requires |f| == MAX_FUTURE + 1
    ensures g.Some? ==> |g.value| == MAX_FUTURE + 1
  {
    var suit := Suit(f[COUNT]);
    match op
    case Boot =>
      if Verifies(f) && f[COUNT] == VARS then Some(f)
      else if suit > VARS + 1 then None
      else Some(Fresh(Migrated(suit, f[..VARS])))
    case Write(idx, val) =>
      if idx >= suit || (f[idx] == val && Verifies(f)) then Some(f)
      else if suit > VARS then None
      else Some(Fresh(f[..suit][idx := val]))
  }

  function Steps(f: seq<Word>, ops: seq<Op>): (g: Option<seq<Word>>)
    requires |f| == MAX_FUTURE + 1
    ensures g.Some? ==> |g.value| == MAX_FUTURE + 1
    decreases |ops|
  {
    if ops == [] then Some(f)
    else
      var before := Steps(f, ops[..|ops| - 1]);
      if before.None? then None else Step(before.value, ops[|ops| - 1])
  }

  lemma {:induction false} StaysNone(f: seq<Word>, ops: seq<Op>, i: nat)
    requires |f| == MAX_FUTURE + 1 && i <= |ops| && Steps(f, ops[..i]).None?
    ensures Steps(f, ops).None?
    decreases |ops|
  {
    if i == |ops| {
      assert ops[..i] == ops;
    } else {
      assert ops[..|ops| - 1][..i] == ops[..i];
      StaysNone(f, ops[..|ops| - 1], i);
    }
  }

  /** The field has the count of this program, verifies and holds `vars`. */
  predicate Settled(f: seq<Word>, vars: seq<Word>) {
    |f| == MAX_FUTURE + 1 && f[COUNT] == VARS && Verifies(f) && f[..VARS] == vars
  }

  lemma FreshSettles(vars: seq<Word>)
    requires |vars| == VARS && vars[COUNT] == VARS
    ensures Settled(Fresh(vars), vars)
  {
    assert Fresh(vars)[..VARS][COUNT] == VARS;
  }

  /**
  What a boot makes of each variable beside the count, for every stored count: kept if the count
  reaches that far, its default if not.
  */
  lemma BootKeeps(f: seq<Word>, i: nat)
    requires |f| == MAX_FUTURE + 1 && i < VARS && i != COUNT && Step(f, Boot).Some?
    ensures Step(f, Boot).value[COUNT] == VARS
    ensures Step(f, Boot).value[i] == if i < f[COUNT] then f[i] else DEFAULTS[i]
  {
    var g := Step(f, Boot).value;
    BootSettles(f);
    assert g[i] == g[..VARS][i];
    assert f[..VARS][i] == f[i];
  }

  /** A boot settles the field, unless the stored count makes the copy run over the shadow array. */
  lemma BootSettles(f: seq<Word>)
    requires |f| == MAX_FUTURE + 1
    ensures Step(f, Boot).None? <==> VARS + 1 < f[COUNT] <= MAX_FUTURE
    ensures Step(f, Boot).Some? ==> Settled(Step(f, Boot).value, Migrated(Suit(f[COUNT]), f[..VARS]))
  {
    var vars := Migrated(Suit(f[COUNT]), f[..VARS]);
    if Verifies(f) && f[COUNT] == VARS {
      assert forall i :: 0 <= i < VARS ==> f[..VARS][i] == vars[i];
      assert f[..VARS] == vars;
    } else {
      FreshSettles(vars);
    }
  }

  lemma OpKeepsSettled(f: seq<Word>, vars: seq<Word>, op: Op)
    requires Settled(f, vars) && (op.Write? && op.idx == COUNT ==> op.val == VARS)
    ensures var g := Step(f, op); g.Some? && Settled(g.value, After(vars, [op]))
  {
    assert f[..VARS][COUNT] == f[COUNT];
    assert [op][..0] == [] && After(vars, []) == vars;
    if op.Write? && op.idx < VARS {
      assert f[..VARS][op.idx] == f[op.idx];
      if f[op.idx] == op.val {
        assert vars[op.idx := op.val] == vars;
      } else {
        FreshSettles(vars[op.idx := op.val]);
      }
    } else if op.Boot? {
      assert Step(f, op) == Some(f);
    }
  }

  /**
  A run that starts with a boot and never writes another count than the program's own keeps the
  field verified, with exactly the values written last.
  */
  lemma {:induction false} RunStaysSettled(f: seq<Word>, vars: seq<Word>, ops: seq<Op>)
    requires Settled(f, vars)
    requires forall i :: 0 <= i < |ops| && ops[i].Write? && ops[i].idx == COUNT ==> ops[i].val == VARS
    ensures Steps(f, ops).Some? && Settled(Steps(f, ops).value, After(vars, ops))
    decreases |ops|
  {
    if ops == [] {
      assert Steps(f, ops) == Some(f) && After(vars, ops) == vars;
    } else {
      var front, op := ops[..|ops| - 1], ops[|ops| - 1];
      RunStaysSettled(f, vars, front);
      OpKeepsSettled(Steps(f, front).value, After(vars, front), op);
      assert [op][..0] == [] && After(After(vars, front), []) == After(vars, front);
    }
  }

  /**
  A write that rewrites the field, whatever count is stored or written: whether it verifies
  afterwards is decided by the count that it then shows.
  */
  lemma WriteVerifies(f: seq<Word>, idx: nat, val: Word)
    requires |f| == MAX_FUTURE + 1 && idx < Suit(f[COUNT]) <= VARS && !(f[idx] == val && Verifies(f))
    ensures Step(f, Write(idx, val)).Some?
    ensures var (g, vars) := (Step(f, Write(idx, val)).value, f[..Suit(f[COUNT])][idx := val]);
      && (Verifies(g) <==> VerifiesAs(g, vars, g[COUNT]))
      && g[COUNT] == if idx == COUNT || Suit(f[COUNT]) == COUNT then val else f[COUNT]
  {
    var vars := f[..Suit(f[COUNT])][idx := val];
    var g := Fresh(vars);
    OtherCount(g, vars, g[COUNT]);
    if |vars| > COUNT {
      assert g[..|vars|][COUNT] == vars[COUNT];
    } else {
      assert vars[..0] == [] && Xor(vars) == Xor2(0, val);
      BitXorUnits(val);
    }
  }

  class Store {
    const chip: Chip
    /** powerupVarShadow, with room for the check word */
    const shadow: array<Word>

    ghost predicate Valid()
      reads this, chip
    {
      chip.Valid() && shadow.Length == VARS + 1 && shadow != chip.words
    }

    constructor (chip: Chip)
      requires chip.Valid()
      ensures Valid() && this.chip == chip && fresh(shadow)
    {
      this.chip := chip;
      shadow := new Word[VARS + 1](_ => 0);
    }

    /** The stored variable count; a field that was never written shows a huge one. */
    function Count(): Word
      requires Valid()
      reads this, chip, chip.words
    {
      chip.words[AT + COUNT]
    }

    /** getSuitVarNum */
    function SuitVarNum(): (n: nat)
      requires Valid()
      reads this, chip, chip.words
      ensures n <= MAX_FUTURE
    {
      Suit(Count())
    }

    /** The first `n` variables of the field. */
    ghost function Vars(n: nat): (s: seq<Word>)
      requires Valid() && n <= MAX_FUTURE
      reads this, chip, chip.words
      ensures |s| == n
    {
      chip.words[AT..AT + n]
    }

    /** The part of the flash that any count can reach. */
    ghost function Field(): (f: seq<Word>)
      requires Valid()
      reads this, chip, chip.words
      ensures |f| == MAX_FUTURE + 1
    {
      chip.words[AT..AT + MAX_FUTURE + 1]
    }

    /** The field verifies. */
    ghost predicate Intact()
      requires Valid()
      reads this, chip, chip.words
    {
      1 <= Count() <= MAX_FUTURE && Xor(Vars(Count())) == chip.words[AT + Count()]
    }

    lemma IntactShows()
      requires Valid()
      ensures Field()[COUNT] == Count() && (Intact() <==> Verifies(Field()))
      ensures forall n :: 0 <= n <= MAX_FUTURE ==> Vars(n) == Field()[..n]
    {
      assert Field()[COUNT] == Count();
      if 1 <= Count() <= MAX_FUTURE {
        assert Vars(Count()) == Field()[..Count()] && Field()[Count()] == chip.words[AT + Count()];
      }
    }

    /** check_func */
    method CheckFunc(a: array<Word>, from: nat, len: nat) returns (res: Word)
      requires from + len <= a.Length
      ensures res == Xor(a[from..from + len])
    {
      res := 0;
      for i := 0 to len
        invariant res == Xor(a[from..from + i])
      {
        assert a[from..from + i + 1][..i] == a[from..from + i];
        res := Xor2(res, a[from + i]);
      }
    }

    method VerifyField() returns (ok: bool)
      requires Valid()
      ensures ok <==> Intact()
    {
      var n := Count();
      if n > MAX_FUTURE || n < 1 { return false; }
      var check := CheckFunc(chip.words, AT, n);
      return check == chip.words[AT + n];
    }

    function Read(idx: nat): Word
      requires Valid() && idx < MAX_FUTURE
      reads this, chip, chip.words
    {
      chip.words[AT + idx]
    }

    /** The mark of the field's sector is clear, as it is between calls. */
    ghost predicate Rested()
      requires Valid()
      reads this, chip, chip.marks
    {
      !chip.marks[FIELD_SECTOR]
    }

    /** The copy into the shadow array. */
    method Shadow(n: nat)
      requires Valid() && n <= VARS + 1
      modifies shadow
      ensures shadow[..n] == Vars(n)
    {
      for i := 0 to n
        invariant forall j :: 0 <= j < i ==> shadow[j] == chip.words[AT + j]
      {
        shadow[i] := Read(i);
      }
    }

    ghost predicate BlankBehind(n: nat)
      requires Valid()
      reads this, chip, chip.words
    {
      BlankFrom(chip.words[..], n)
    }

    /** One write sequence: erase once, program the buffer. */
    method Burn(buf: seq<Word>)
      requires Valid() && Rested() && |buf| <= VARS + 1
      modifies chip`clean, chip.words, chip.marks
      ensures Valid() && chip.words[..] == Programmed(Erased(old(chip.words[..]), FIELD_SECTOR), AT, buf)
      ensures chip.words[AT..AT + |buf|] == buf && BlankBehind(|buf|)
      ensures chip.clean == old(chip.clean) && chip.marks[..] == old(chip.marks[..])[FIELD_SECTOR := true]
    {
      FieldPlace();
      FreshWrite(chip.words[..], buf);
      var ret, outside := chip.WriteBytes(FIELD, buf, 4 * |buf|);
    }

    /** A write of `val` at `idx` changes something, or finds a field that does not verify. */
    ghost predicate Needed(idx: nat, val: Word)
      requires Valid()
      reads this, chip, chip.words
    {
      idx < SuitVarNum() && !(Read(idx) == val && Intact())
    }

    /**
    write. With a stored count above VARS the copy would run over the shadow array; `overrun`
    reports that and nothing is modelled beyond it.
    */
    method Write(idx: nat, val: Word) returns (overrun: bool)
      requires Valid() && Rested()
      modifies chip`clean, chip.words, chip.marks, shadow
      ensures Valid() && Rested() && chip.clean == old(chip.clean)
      ensures overrun <==> Step(old(Field()), Op.Write(idx, val)).None?
      ensures !overrun ==> Step(old(Field()), Op.Write(idx, val)) == Some(Field())
      ensures overrun <==> old(Needed(idx, val)) && old(SuitVarNum()) > VARS
      ensures overrun || !old(Needed(idx, val)) ==> chip.words[..] == old(chip.words[..])
      ensures idx < old(SuitVarNum()) && !overrun ==>
                Vars(old(SuitVarNum())) == old(Vars(SuitVarNum()))[idx := val]
      ensures idx < old(SuitVarNum()) && !overrun && idx != COUNT && 2 <= old(Count()) ==>
                Count() == old(Count()) && (Intact() <==> Count() <= MAX_FUTURE)
      ensures old(Needed(COUNT, val)) && idx == COUNT && !overrun ==>
                Count() == val && (Intact() <==> VerifiesAs(Field(), Vars(old(SuitVarNum())), val))
    {
      var suit := SuitVarNum();
      IntactShows();
      if idx >= suit { return false; }
      if Read(idx) == val {
        var ok := VerifyField();
        if ok {
          assert Vars(suit)[idx] == val;
          return false;
        }
      }
      if suit > VARS { return true; }
      ghost var vars := Vars(suit);
      assert suit > COUNT ==> vars[COUNT] == Count();
      Rewrite(suit, idx, val);
      FreshIs(Field(), vars[idx := val]);
      assert suit > COUNT ==> Vars(suit)[COUNT] == Count();
      FieldVerifies(vars[idx := val]);
      return false;
    }

    /** The field holds `vars` and their check word, on flash erased behind them. */
    ghost predicate Holds(vars: seq<Word>)
      requires Valid() && |vars| < MAX_FUTURE
      reads this, chip, chip.words
    {
      FreshField(Field(), vars)
    }

    lemma FieldVerifies(vars: seq<Word>)
      requires Valid() && |vars| < MAX_FUTURE && Holds(vars)
      ensures Vars(|vars|) == vars
      ensures Intact() <==> VerifiesAs(Field(), vars, Count())
    {
      OtherCount(Field(), vars, Count());
      assert Vars(|vars|) == Field()[..|vars|];
      if 1 <= Count() <= MAX_FUTURE {
        assert Vars(Count()) == Field()[..Count()];
      }
    }

    method Rewrite(suit: nat, idx: nat, val: Word)
      requires Valid() && Rested() && idx < suit <= VARS
      modifies chip`clean, chip.words, chip.marks, shadow
      ensures Valid() && Rested() && chip.clean == old(chip.clean)
      ensures Holds(old(Vars(suit))[idx := val]) && Vars(suit) == old(Vars(suit))[idx := val]
    {
      Shadow(suit);
      shadow[idx] := val;
      ghost var vars := old(Vars(suit))[idx := val];
      assert shadow[..suit] == vars;
      var check := CheckFunc(shadow, 0, suit);
      assert shadow[0..0 + suit] == vars;
      shadow[suit] := check;
      assert shadow[..suit + 1] == vars + [Xor(vars)];
      Burn(shadow[..suit + 1]);
      FieldPlace();
      chip.ResetMark(FIELD);
      FieldHolds(vars);
    }

    /** The defaults behind the kept variables. */
    method FillDefaults(from: nat)
      requires Valid()
      modifies shadow
      ensures forall i :: 0 <= i < VARS ==> shadow[i] == if i < from then old(shadow[i]) else DEFAULTS[i]
      ensures shadow[VARS] == old(shadow[VARS])
    {
      var i := from;
      while i < VARS
        invariant from <= i && (from <= VARS ==> i <= VARS)
        invariant forall k :: 0 <= k < VARS ==>
                    shadow[k] == if from <= k < i then DEFAULTS[k] else old(shadow[k])
        invariant shadow[VARS] == old(shadow[VARS])
      {
        shadow[i] := DEFAULTS[i];
        i := i + 1;
      }
    }

    /** Field and check word in two writes of one sequence: the second finds the sector marked. */
    method BurnTwice(vars: seq<Word>, check: Word)
      requires Valid() && Rested() && |vars| == VARS
      modifies chip`clean, chip.words, chip.marks
      ensures Valid() && Rested() && chip.clean == old(chip.clean)
      ensures chip.words[AT..AT + VARS + 1] == vars + [check] && BlankBehind(VARS + 1)
    {
      Burn(vars);
      FieldPlace();
      SecondPlace();
      ghost var was := chip.words[..];
      OnesAnd(check);
      assert was[AT..AT + VARS] == vars;
      assert was[AT + VARS] == ONES;
      var ret, outside := chip.WriteBytes(FIELD + 4 * VARS, [check], 4);
      assert chip.words[AT..AT + VARS] == was[AT..AT + VARS];
      assert chip.words[AT + VARS] == check;
      chip.ResetMark(FIELD);
    }

    /** initInApp; with more than VARS + 1 stored variables the copy would run over the shadow array. */
    method InitInApp() returns (overrun: bool)
      requires Valid() && Rested()
      modifies chip`clean, chip.words, chip.marks, shadow
      ensures Valid() && Rested() && chip.clean == old(chip.clean)
      ensures overrun <==> Step(old(Field()), Boot).None?
      ensures !overrun ==> Step(old(Field()), Boot) == Some(Field())
      ensures overrun <==> VARS + 1 < old(Count()) <= MAX_FUTURE
      ensures overrun ==> chip.words[..] == old(chip.words[..])
      ensures !overrun ==> Count() == VARS && Intact()
      ensures !overrun ==> forall i :: 0 <= i < VARS && i != COUNT ==>
                Read(i) == if i < old(Count()) then old(Read(i)) else DEFAULTS[i]
    {
      ghost var f := Field();
      IntactShows();
      BootSettles(f);
      var ok := VerifyField();
      var actual := SuitVarNum();
      if ok && actual == VARS {
        BootShows(f);
        return false;
      }
      if actual > VARS + 1 { return true; }
      ghost var vars := Migrated(actual, Vars(VARS));
      Migrate(actual);
      FreshIs(Field(), vars);
      IntactShows();
      BootShows(f);
      return false;
    }

    lemma BootShows(f: seq<Word>)
      requires Valid() && |f| == MAX_FUTURE + 1 && Step(f, Boot) == Some(Field())
      ensures forall i :: 0 <= i < VARS && i != COUNT ==> Read(i) == if i < f[COUNT] then f[i] else DEFAULTS[i]
    {
      forall i | 0 <= i < VARS && i != COUNT
        ensures Read(i) == if i < f[COUNT] then f[i] else DEFAULTS[i]
      {
        BootKeeps(f, i);
        assert Field()[i] == Read(i);
      }
    }

    /** The rewriting half of initInApp. */
    method Migrate(actual: nat)
      requires Valid() && Rested() && actual <= VARS + 1
      modifies chip`clean, chip.words, chip.marks, shadow
      ensures Valid() && Rested() && chip.clean == old(chip.clean)
      ensures Holds(Migrated(actual, old(Vars(VARS))))
    {
      Shadow(actual);
      assert forall i :: 0 <= i < actual ==> shadow[i] == shadow[..actual][i] == chip.words[AT + i];
      FillDefaults(actual);
      shadow[COUNT] := VARS;
      ghost var vars := Migrated(actual, Vars(VARS));
      assert forall i :: 0 <= i < VARS ==> shadow[i] == vars[i];
      assert shadow[..VARS] == vars;
      var check := CheckFunc(shadow, 0, VARS);
      assert shadow[0..0 + VARS] == vars;
      BurnTwice(shadow[..VARS], check);
      FieldHolds(vars);
    }

    /** Any sequence of boots and writes, up to the first that would run over the shadow array. */
    method Run(ops: seq<Op>) returns (overrun: bool)
      requires Valid() && Rested()
      modifies chip`clean, chip.words, chip.marks, shadow
      ensures Valid() && Rested() && chip.clean == old(chip.clean)
      ensures overrun <==> Steps(old(Field()), ops).None?
      ensures !overrun ==> Steps(old(Field()), ops) == Some(Field())
    {
      overrun := false;
      for i := 0 to |ops|
        invariant Valid() && Rested() && chip.clean == old(chip.clean)
        invariant !overrun && Steps(old(Field()), ops[..i]) == Some(Field())
      {
        assert ops[..i + 1][..i] == ops[..i];
        match ops[i] {
          case Boot => overrun := InitInApp();
          case Write(idx, val) => overrun := Write(idx, val);
        }
        if overrun {
          StaysNone(old(Field()), ops, i + 1);
          return;
        }
      }
      assert ops[..|ops|] == ops;
    }

    lemma FieldHolds(vars: seq<Word>)
      requires Valid() && |vars| <= VARS && chip.words[AT..AT + |vars| + 1] == vars + [Xor(vars)]
      requires BlankBehind(|vars| + 1)
      ensures Holds(vars) && Vars(|vars|) == vars
    {
      var words, n := chip.words[..], |vars|;
      assert words[AT..AT + n + 1] == chip.words[AT..AT + n + 1];
      assert words[AT..AT + MAX_FUTURE + 1] == Field() && words[AT..AT + n] == Vars(n);
      FieldHoldsIn(vars, words, Field(), Vars(n));
    }
  }

  /** What initInApp makes of a field with `suit` usable variables: kept, or taken from the defaults. */
  function Migrated(suit: nat, vars: seq<Word>): (s: seq<Word>)
    requires |vars| == VARS
    ensures |s| == VARS && s[COUNT] == VARS
  {
    seq(VARS, i requires 0 <= i < VARS => if i == COUNT then VARS else if i < suit then vars[i] else DEFAULTS[i])
  }

  /** A field whose words all equal `fill`, but for the stored count. */
  function Uniform(fill: Word, count: Word): (vars: seq<Word>)
    ensures |vars| == VARS && vars[COUNT] == count
  {
    seq(VARS, i => if i == COUNT then count else fill)
  }

  /**
  initInApp gives variable i its default, whatever the field holds, if and only if the stored
  count is at most i.
  */
  lemma DefaultExact(count: Word, i: nat)
    requires i < VARS && i != COUNT
    ensures (forall vars: seq<Word> | |vars| == VARS && vars[COUNT] == count ::
               Migrated(Suit(count), vars)[i] == DEFAULTS[i])
            <==> count <= i
  {
    if count > i {
      var fill := if DEFAULTS[i] == 0 then 1 else 0;
      assert Migrated(Suit(count), Uniform(fill, count))[i] == fill;
    }
  }

  /** So a field on erased flash keeps all ones: no variable gets its default. */
  lemma ErasedGetsNoDefault(i: nat)
    requires i < VARS && i != COUNT
    ensures Migrated(Suit(ONES), Uniform(ONES, ONES))[i] == ONES != DEFAULTS[i]
  {
  }

  datatype Op = Boot | Write(idx: nat, val: Word)

  /** The variables after a sequence of operations. */
  function After(vars: seq<Word>, ops: seq<Op>): (s: seq<Word>)
    ensures |s| == |vars|
    decreases |ops|
  {
    if ops == [] then vars
    else
      var before, op := After(vars, ops[..|ops| - 1]), ops[|ops| - 1];
      if op.Write? && op.idx < |vars| then before[op.idx := op.val] else before
  }

  /** The value of a variable is the last one written to it, or else the first one. */
  lemma {:induction false} LastWriteWins(vars: seq<Word>, ops: seq<Op>, i: nat, k: nat)
    requires i < |vars| && k < |ops| && ops[k].Write? && ops[k].idx == i
    requires forall j :: k < j < |ops| && ops[j].Write? ==> ops[j].idx != i
    ensures After(vars, ops)[i] == ops[k].val
    decreases |ops|
  {
    var front := ops[..|ops| - 1];
    if k == |front| {
    } else {
      assert front[k] == ops[k];
      LastWriteWins(vars, front, i, k);
    }
  }

  lemma {:induction false} NeverWritten(vars: seq<Word>, ops: seq<Op>, i: nat)
    requires i < |vars| && forall j :: 0 <= j < |ops| && ops[j].Write? ==> ops[j].idx != i
    ensures After(vars, ops)[i] == vars[i]
    decreases |ops|
  {
    if ops == [] {
    } else {
      NeverWritten(vars, ops[..|ops| - 1], i);
    }
  }

  lemma FreshWrite(words: seq<Word>, buf: seq<Word>)
    requires |words| == SIZE / 4 && |buf| <= VARS + 1
    ensures var erased := Erased(words, FIELD_SECTOR);
      Programmed(erased, AT, buf)[AT..AT + |buf|] == buf && Blank(erased, AT, |buf|)
  {
    FieldPlace();
    StoresExactly(words, FIELD_SECTOR, AT, buf);
  }
}
