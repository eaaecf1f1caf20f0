/**
 * Linear feedback shift registers over GF(2), independent of width, bit order and generator.
 * The CRCs of src/crc32.c and src/crc16.c are instances; what they share is proved here once.
 */
module Registers {

  // ---------------------------------------------------------------------------
  // Polynomials over GF(2): the exponents of the nonzero terms
  // ---------------------------------------------------------------------------

  type Poly = set<nat>

  function Add(p: Poly, q: Poly): Poly {
    (p - q) + (q - p)
  }

  function TimesX(p: Poly): (r: Poly)
    ensures forall e: nat :: e in r <==> e >= 1 && e - 1 in p
  {
    set e | e in p :: e + 1
  }

  function Term(b: bool, p: Poly): Poly {
    if b then p else {}
  }

  /** The dividend of a CRC: p * x^n + bits * x^width, built up bit by bit. */
  function Dividend(width: nat, p: Poly, bits: seq<bool>): Poly
    decreases |bits|
  {
    if bits == [] then p else Dividend(width, Add(TimesX(p), Term(bits[0], {width})), bits[1..])
  }

  /** acc * x^n plus the product of g with the polynomial whose coefficients are qs. */
  function Multiple(g: Poly, acc: Poly, qs: seq<bool>): Poly
    decreases |qs|
  {
    if qs == [] then acc else Multiple(g, Add(TimesX(acc), Term(qs[0], g)), qs[1..])
  }

  ghost predicate Below(p: Poly, degree: nat) {
    forall e :: e in p ==> e < degree
  }

  ghost predicate HasDegree(p: Poly, degree: nat) {
    degree in p && Below(p, degree + 1)
  }

  /** r is the remainder of p divided by g. */
  ghost predicate IsRemainder(p: Poly, g: Poly, degree: nat, r: Poly) {
    Below(r, degree) && exists qs: seq<bool> :: p == Add(Multiple(g, {}, qs), r)
  }

  lemma HornerStep(acc: Poly, p: Poly, b: Poly, q: Poly)
    ensures Add(TimesX(Add(acc, p)), b) == Add(Add(TimesX(acc), q), Add(Add(TimesX(p), b), q))
  {
  }

  lemma Reassemble(width: nat, p: Poly, p': Poly, f: Poly, b: bool)
    requires width > 0 && Below(p, width) && Below(p', width) && Below(f, width)
    requires forall e: nat :: e < width ==> (e in p' <==> (e in TimesX(p)) != ((width - 1 in p) != b && e in f))
    ensures p' == Add(Add(TimesX(p), Term(b, {width})), Term((width - 1 in p) != b, f + {width}))
  {
  }

  lemma SameParts(s: seq<bool>, t: seq<bool>, i: nat, j: nat)
    requires |s| == |t| && i <= j <= |s|
    requires s[..i] == t[..i] && s[i..j] == t[i..j] && s[j..] == t[j..]
    ensures s == t
  {
    assert s == s[..i] + s[i..j] + s[j..] && t == t[..i] + t[i..j] + t[j..];
  }

  // ---------------------------------------------------------------------------
  // Registers and their laws
  // ---------------------------------------------------------------------------

  /**
   * A register holds the coefficients of a polynomial of degree below `width`. `lead` reads the
   * highest one and `shift` moves every other one place up, dropping it; `unshift` moves them down.
   * `unit` is the register with the leading coefficient alone, and `feedback` holds the generator
   * without its highest term. Reflected and unreflected CRCs differ only in these operations.
   */
  datatype Register<!T(!new)> = Register(
    width: nat,
    zero: T,
    unit: T,
    feedback: T,
    add: (T, T) -> T,
    lead: T -> bool,
    shift: T -> T,
    unshift: T -> T
  ) {

    /** One zero bit: multiply by x and subtract the generator when x^width appears. */
    function Step(c: T): T {
      if lead(c) then add(shift(c), feedback) else shift(c)
    }

    function Bit(b: bool): T {
      if b then unit else zero
    }

    /** The register after feeding bits one at a time. */
    function Feed(c: T, bits: seq<bool>): T
      decreases |bits|
    {
      if bits == [] then c else Feed(Step(add(c, Bit(bits[0]))), bits[1..])
    }

    /** The register after n zero bits. */
    function Run(c: T, n: nat): T
      decreases n, c
    {
      if n == 0 then c else Run(Step(c), n - 1)
    }

    /** n shifts without feedback. */
    function Drop(c: T, n: nat): T
      decreases n, c
    {
      if n == 0 then c else Drop(shift(c), n - 1)
    }

    /** The coefficient i places below the leading one. */
    predicate At(c: T, i: nat) {
      lead(Drop(c, i))
    }

    function ToPoly(c: T): (p: Poly)
      ensures forall e: nat :: e in p <==> e < width && At(c, width - 1 - e)
    {
      set i: nat | i < width && At(c, i) :: width - 1 - i
    }

    function Generator(): Poly {
      ToPoly(feedback) + {width}
    }

    /** Up to width bits packed so that the first one leads. */
    function Load(bits: seq<bool>): T
      decreases |bits|
    {
      if bits == [] then zero else add(unshift(Load(bits[1..])), Bit(bits[0]))
    }

    /** `add` is exclusive or: the group laws below follow from these two. */
    ghost predicate AddLaws() {
      && (forall a {:trigger add(zero, a)} {:trigger add(a, zero)} :: add(zero, a) == add(a, zero) == a)
      && (forall a, b, c {:trigger add(add(a, c), add(b, c))} :: add(add(a, c), add(b, c)) == add(a, b))
    }

    /** `lead` and `shift` are linear and together determine the register. */
    ghost predicate ShiftLaws() {
      && !lead(zero) && shift(zero) == zero && lead(unit) && shift(unit) == zero
      && (forall a, b {:trigger lead(add(a, b))} :: lead(add(a, b)) <==> lead(a) != lead(b))
      && (forall a, b {:trigger shift(add(a, b))} :: shift(add(a, b)) == add(shift(a), shift(b)))
      && (forall a, b {:trigger shift(a), shift(b)} :: shift(a) == shift(b) && lead(a) == lead(b) ==> a == b)
    }

    /** There are exactly `width` places, and `unshift` undoes `shift` while the lowest one is free. */
    ghost predicate WidthLaws() {
      && width > 0
      && (forall c {:trigger Drop(c, width)} :: Drop(c, width) == zero)
      && (forall c {:trigger unshift(c)} :: !lead(unshift(c)) && (!At(c, width - 1) ==> shift(unshift(c)) == c))
      && At(feedback, width - 1)
    }

    ghost predicate Lawful() {
      AddLaws() && ShiftLaws() && WidthLaws()
    }

    // -------------------------------------------------------------------------
    // Consequences
    // -------------------------------------------------------------------------

    lemma {:induction false} FeedAppend(c: T, s: seq<bool>, t: seq<bool>)
      ensures Feed(c, s + t) == Feed(Feed(c, s), t)
      decreases |s|
    {
      if s == [] {
        assert s + t == t;
      } else {
        assert (s + t)[1..] == s[1..] + t;
        FeedAppend(Step(add(c, Bit(s[0]))), s[1..], t);
      }
    }

    lemma {:induction false} RunAppend(c: T, m: nat, n: nat)
      ensures Run(c, m + n) == Run(Run(c, m), n)
      decreases m
    {
      if m > 0 {
        RunAppend(Step(c), m - 1, n);
      }
    }

    /** While the leading coefficients are clear the generator is never subtracted. */
    lemma {:induction false} RunClear(c: T, n: nat)
      requires forall i :: 0 <= i < n ==> !At(c, i)
      ensures Run(c, n) == Drop(c, n)
      decreases n
    {
      if n > 0 {
        assert !At(c, 0);
        forall i: nat {:trigger At(shift(c), i)} | i < n - 1
          ensures !At(shift(c), i)
        {
          assert !At(c, i + 1);
        }
        RunClear(shift(c), n - 1);
      }
    }

    lemma AddTwice(a: T, b: T)
      requires AddLaws()
      ensures add(add(a, b), b) == a && add(b, add(a, b)) == a
    {
      assert add(add(a, b), add(zero, b)) == a;
      assert add(add(zero, b), add(a, b)) == a;
    }

    lemma AddAssociates(a: T, b: T, c: T)
      requires AddLaws()
      ensures add(add(a, b), c) == add(a, add(c, b))
    {
      AddTwice(c, b);
      assert add(add(a, b), add(add(c, b), b)) == add(a, add(c, b));
    }

    lemma AddCommutes(a: T, b: T)
      requires AddLaws()
      ensures add(a, b) == add(b, a)
    {
      AddTwice(a, b);
      AddTwice(add(a, b), b);
    }

    lemma AddCancels(a: T, b: T, c: T)
      requires AddLaws() && add(a, c) == add(b, c)
      ensures a == b
    {
      AddTwice(a, c);
      AddTwice(b, c);
    }

    lemma StepLinear(a: T, b: T)
      requires AddLaws() && ShiftLaws()
      ensures Step(add(a, b)) == add(Step(a), Step(b))
    {
      var f, x, y := feedback, shift(a), shift(b);
      assert add(add(x, f), add(y, f)) == add(x, y);
      AddAssociates(x, y, f);
      AddAssociates(x, f, y);
      AddCommutes(y, f);
    }

    lemma {:induction false} DropShift(c: T, n: nat)
      ensures Drop(shift(c), n) == shift(Drop(c, n)) == Drop(c, n + 1)
      decreases n
    {
      if n > 0 {
        DropShift(shift(c), n - 1);
      }
    }

    lemma {:induction false} DropAppend(c: T, m: nat, n: nat)
      ensures Drop(c, m + n) == Drop(Drop(c, m), n)
      decreases m
    {
      if m > 0 {
        DropAppend(shift(c), m - 1, n);
      }
    }

    lemma {:induction false} AtAdd(a: T, b: T, i: nat)
      requires ShiftLaws()
      ensures At(add(a, b), i) <==> At(a, i) != At(b, i)
      decreases i
    {
      if i > 0 {
        AtAdd(shift(a), shift(b), i - 1);
      }
    }

    lemma {:induction false} AtBit(b: bool, i: nat)
      requires ShiftLaws()
      ensures At(Bit(b), i) <==> i == 0 && b
      ensures !At(zero, i)
      decreases i
    {
      if i > 0 {
        AtBit(false, i - 1);
      }
    }

    /** A register is its coefficients. */
    lemma {:induction false} AtDetermines(a: T, b: T, n: nat)
      requires Lawful() && n <= width
      requires forall i :: 0 <= i < width ==> At(a, i) == At(b, i)
      ensures Drop(a, n) == Drop(b, n)
      decreases width - n
    {
      if n < width {
        AtDetermines(a, b, n + 1);
        DropShift(a, n);
        DropShift(b, n);
        assert At(a, n) == At(b, n);
      }
    }

    lemma ToPolyInjective(a: T, b: T)
      requires Lawful() && ToPoly(a) == ToPoly(b)
      ensures a == b
    {
      forall i | 0 <= i < width
        ensures At(a, i) == At(b, i)
      {
        assert At(a, i) <==> width - 1 - i in ToPoly(a);
        assert At(b, i) <==> width - 1 - i in ToPoly(b);
      }
      AtDetermines(a, b, 0);
    }

    /** One coefficient after a step. */
    lemma AtStep(c: T, i: nat)
      requires Lawful()
      ensures At(Step(c), i) <==> At(c, i + 1) != (lead(c) && At(feedback, i))
      ensures !At(c, width)
    {
      AtAdd(shift(c), feedback, i);
      assert Drop(c, width) == zero;
    }

    lemma StepInjective(a: T, b: T)
      requires Lawful() && Step(a) == Step(b)
      ensures a == b
    {
      AtStep(a, width - 1);
      AtStep(b, width - 1);
      if lead(a) {
        AddCancels(shift(a), shift(b), feedback);
      }
    }

    lemma {:induction false} RunLinear(a: T, b: T, n: nat)
      requires AddLaws() && ShiftLaws()
      ensures Run(add(a, b), n) == add(Run(a, n), Run(b, n))
      decreases n
    {
      if n > 0 {
        StepLinear(a, b);
        RunLinear(Step(a), Step(b), n - 1);
      }
    }

    lemma {:induction false} RunZero(n: nat)
      requires ShiftLaws()
      ensures Run(zero, n) == zero
      decreases n
    {
      if n > 0 {
        RunZero(n - 1);
      }
    }

    lemma {:induction false} RunInjective(a: T, b: T, n: nat)
      requires Lawful() && Run(a, n) == Run(b, n)
      ensures a == b
      decreases n
    {
      if n > 0 {
        RunInjective(Step(a), Step(b), n - 1);
        StepInjective(a, b);
      }
    }

    lemma {:induction false} FeedInjective(a: T, b: T, bits: seq<bool>)
      requires Lawful() && Feed(a, bits) == Feed(b, bits)
      ensures a == b
      decreases |bits|
    {
      if bits != [] {
        var u := Bit(bits[0]);
        FeedInjective(Step(add(a, u)), Step(add(b, u)), bits[1..]);
        StepInjective(add(a, u), add(b, u));
        AddCancels(a, b, u);
      }
    }

    /** One more bit in front of a packed string. */
    function Pack(b: bool, x: T): T {
      add(unshift(x), Bit(b))
    }

    lemma LoadFront(b: bool, bits: seq<bool>)
      ensures Load([b] + bits) == Pack(b, Load(bits))
    {
      assert ([b] + bits)[1..] == bits;
    }

    lemma LoadFour(b0: bool, b1: bool, b2: bool, b3: bool, bits: seq<bool>) returns (x0: T, x1: T, x2: T, x3: T)
      ensures x3 == Pack(b3, Load(bits)) && x2 == Pack(b2, x3) && x1 == Pack(b1, x2) && x0 == Pack(b0, x1)
      ensures x0 == Load([b0, b1, b2, b3] + bits)
    {
      x3, x2, x1 := Load([b3] + bits), Load([b2] + ([b3] + bits)), Load([b1] + ([b2] + ([b3] + bits)));
      LoadFront(b3, bits);
      LoadFront(b2, [b3] + bits);
      LoadFront(b1, [b2] + ([b3] + bits));
      LoadFront(b0, [b1] + ([b2] + ([b3] + bits)));
      assert [b0, b1, b2, b3] + bits == [b0] + ([b1] + ([b2] + ([b3] + bits)));
      x0 := Load([b0, b1, b2, b3] + bits);
    }

    lemma AtUnshift(c: T, i: nat)
      requires WidthLaws() && !At(c, width - 1)
      ensures At(unshift(c), i) <==> i > 0 && At(c, i - 1)
    {
      if i > 0 {
        assert Drop(unshift(c), i) == Drop(shift(unshift(c)), i - 1);
      }
    }

    lemma {:induction false} LoadMeaning(bits: seq<bool>, i: nat)
      requires Lawful() && |bits| <= width && i < width
      ensures At(Load(bits), i) <==> i < |bits| && bits[i]
      decreases |bits|
    {
      hide At, Drop;
      if bits == [] {
        AtBit(false, i);
      } else {
        var l := Load(bits[1..]);
        LoadMeaning(bits[1..], width - 1);
        AtUnshift(l, i);
        AtAdd(unshift(l), Bit(bits[0]), i);
        AtBit(bits[0], i);
        if i > 0 {
          LoadMeaning(bits[1..], i - 1);
        }
      }
    }

    lemma StepLoad(bits: seq<bool>)
      requires Lawful() && 0 < |bits| <= width
      ensures Step(add(Load(bits), Bit(bits[0]))) == Load(bits[1..])
    {
      var l, u := Load(bits[1..]), Bit(bits[0]);
      LoadMeaning(bits[1..], width - 1);
      assert add(add(unshift(l), u), add(zero, u)) == unshift(l);
    }

    /** Feeding up to width bits is adding them all at once and then running the register. */
    lemma {:induction false} FeedIsLoadThenRun(c: T, bits: seq<bool>)
      requires Lawful() && |bits| <= width
      ensures Feed(c, bits) == Run(add(Load(bits), c), |bits|)
      decreases |bits|
    {
      if bits != [] {
        var u, l := Bit(bits[0]), Load(bits);
        FeedIsLoadThenRun(Step(add(c, u)), bits[1..]);
        StepLoad(bits);
        StepLinear(add(l, u), add(c, u));
      }
    }

    lemma WindowInjective(c: T, s: seq<bool>, t: seq<bool>)
      requires Lawful() && |s| == |t| <= width && Feed(c, s) == Feed(c, t)
      ensures s == t
    {
      FeedIsLoadThenRun(c, s);
      FeedIsLoadThenRun(c, t);
      RunInjective(add(Load(s), c), add(Load(t), c), |s|);
      AddCancels(Load(s), Load(t), c);
      forall i | 0 <= i < |s|
        ensures s[i] == t[i]
      {
        LoadMeaning(s, i);
        LoadMeaning(t, i);
      }
    }

    lemma FeedSplit(c: T, s: seq<bool>, i: nat, j: nat)
      requires i <= j <= |s|
      ensures Feed(c, s) == Feed(Feed(Feed(c, s[..i]), s[i..j]), s[j..])
    {
      assert s == s[..i] + s[i..] && s[i..] == s[i..j] + s[j..];
      FeedAppend(c, s[..i], s[i..]);
      FeedAppend(Feed(c, s[..i]), s[i..j], s[j..]);
    }

    lemma WindowDecides(c: T, s: seq<bool>, t: seq<bool>, i: nat, j: nat)
      requires Lawful()
      requires |s| == |t| && i <= j <= |s| && j - i <= width
      requires s[..i] == t[..i] && s[j..] == t[j..]
      requires Feed(c, s) == Feed(c, t)
      ensures s[i..j] == t[i..j]
    {
      FeedSplit(c, s, i, j);
      FeedSplit(c, t, i, j);
      var d := Feed(c, s[..i]);
      FeedInjective(Feed(d, s[i..j]), Feed(d, t[i..j]), s[j..]);
      WindowInjective(d, s[i..j], t[i..j]);
    }

    /** Two bit strings that differ, but only inside one window of width bits, end in different registers. */
    lemma BurstDetected(c: T, s: seq<bool>, t: seq<bool>, lo: nat)
      requires Lawful()
      requires |s| == |t| && s != t
      requires forall i :: 0 <= i < |s| && !(lo <= i < lo + width) ==> s[i] == t[i]
      ensures Feed(c, s) != Feed(c, t)
    {
      var i := if lo < |s| then lo else |s|;
      var j := if lo + width < |s| then lo + width else |s|;
      assert s[..i] == t[..i] && s[j..] == t[j..];
      if Feed(c, s) == Feed(c, t) {
        WindowDecides(c, s, t, i, j);
        SameParts(s, t, i, j);
      }
    }

    lemma GeneratorDegree()
      ensures HasDegree(Generator(), width)
    {
    }

    /** One coefficient after feeding a bit. */
    lemma AtFeed(c: T, b: bool, i: nat)
      requires Lawful() && i < width
      ensures At(Step(add(c, Bit(b))), i) <==>
              (i + 1 < width && At(c, i + 1)) != (lead(c) != b && At(feedback, i))
    {
      AtStep(add(c, Bit(b)), i);
      AtStep(c, i);
      AtAdd(c, Bit(b), i + 1);
      AtBit(b, i + 1);
      AtAdd(c, Bit(b), 0);
      AtBit(b, 0);
    }

    /** Multiply by x, bring in a term, and subtract the generator when x^width survives. */
    lemma StepDivides(c: T, b: bool)
      requires Lawful()
      ensures ToPoly(Step(add(c, Bit(b)))) ==
              Add(Add(TimesX(ToPoly(c)), Term(b, {width})), Term(lead(c) != b, Generator()))
    {
      var p, p', f := ToPoly(c), ToPoly(Step(add(c, Bit(b)))), ToPoly(feedback);
      forall e: nat | e < width
        ensures e in p' <==> (e in TimesX(p)) != (lead(c) != b && e in f)
      {
        AtFeed(c, b, width - 1 - e);
      }
      Reassemble(width, p, p', f, b);
    }

    /** The bits of the quotient: whether the generator was subtracted at each step. */
    function Quotient(c: T, bits: seq<bool>): (qs: seq<bool>)
      decreases |bits|
    {
      if bits == [] then [] else [lead(c) != bits[0]] + Quotient(Step(add(c, Bit(bits[0]))), bits[1..])
    }

    lemma {:induction false} FeedDivides(acc: Poly, c: T, bits: seq<bool>)
      requires Lawful()
      ensures Dividend(width, Add(acc, ToPoly(c)), bits) ==
              Add(Multiple(Generator(), acc, Quotient(c, bits)), ToPoly(Feed(c, bits)))
      decreases |bits|
    {
      if bits != [] {
        var b := bits[0];
        var c' := Step(add(c, Bit(b)));
        StepDivides(c, b);
        HornerStep(acc, ToPoly(c), Term(b, {width}), Term(lead(c) != b, Generator()));
        FeedDivides(Add(TimesX(acc), Term(lead(c) != b, Generator())), c', bits[1..]);
        assert Quotient(c, bits)[1..] == Quotient(c', bits[1..]);
      }
    }

    /** The register holds the remainder of the dividend by the generator. */
    lemma FeedIsRemainder(c: T, bits: seq<bool>)
      requires Lawful()
      ensures IsRemainder(Dividend(width, ToPoly(c), bits), Generator(), width, ToPoly(Feed(c, bits)))
    {
      FeedDivides({}, c, bits);
      assert Add({}, ToPoly(c)) == ToPoly(c);
    }
  }

  // ---------------------------------------------------------------------------
  // Polynomial division
  // ---------------------------------------------------------------------------

  function Scale(p: Poly, n: nat): (r: Poly)
    ensures forall e: nat :: e in r <==> e >= n && e - n in p
  {
    set e | e in p :: e + n
  }

  /** A bit string as a polynomial, first bit the highest coefficient. */
  function FromBits(bits: seq<bool>): (p: Poly)
    ensures forall e: nat :: e in p <==> e < |bits| && bits[|bits| - 1 - e]
  {
    set i: nat | i < |bits| && bits[i] :: |bits| - 1 - i
  }

  lemma ScaleStep(width: nat, p: Poly, b: bool, f: Poly, n: nat)
    ensures Add(Scale(Add(TimesX(p), Term(b, {width})), n), Scale(f, width)) ==
            Add(Scale(p, n + 1), Scale(Add(f, Term(b, {n})), width))
  {
    var l := Add(Scale(Add(TimesX(p), Term(b, {width})), n), Scale(f, width));
    var r := Add(Scale(p, n + 1), Scale(Add(f, Term(b, {n})), width));
    forall e: nat
      ensures e in l <==> e in r
    {
    }
  }

  /** What is divided: the seed above the message, with width zero coefficients appended. */
  lemma {:induction false} DividendMeaning(width: nat, p: Poly, bits: seq<bool>)
    ensures Dividend(width, p, bits) == Add(Scale(p, |bits|), Scale(FromBits(bits), width))
    decreases |bits|
  {
    if bits == [] {
      assert Scale(p, 0) == p && Scale(FromBits(bits), width) == {};
    } else {
      var n := |bits| - 1;
      DividendMeaning(width, Add(TimesX(p), Term(bits[0], {width})), bits[1..]);
      assert FromBits(bits) == Add(FromBits(bits[1..]), Term(bits[0], {n}));
      ScaleStep(width, p, bits[0], FromBits(bits[1..]), n);
    }
  }

  lemma {:induction false} MultipleDegree(g: Poly, width: nat, acc: Poly, qs: seq<bool>, degree: nat)
    requires HasDegree(g, width) && width <= degree && HasDegree(acc, degree)
    ensures HasDegree(Multiple(g, acc, qs), degree + |qs|)
    decreases |qs|
  {
    if qs != [] {
      var acc' := Add(TimesX(acc), Term(qs[0], g));
      assert degree + 1 in acc';
      MultipleDegree(g, width, acc', qs[1..], degree + 1);
    }
  }

  /** A multiple of g of lower degree than g is zero. */
  lemma {:induction false} SmallMultipleIsZero(g: Poly, width: nat, qs: seq<bool>)
    requires HasDegree(g, width) && Below(Multiple(g, {}, qs), width)
    ensures Multiple(g, {}, qs) == {}
    decreases |qs|
  {
    if qs != [] {
      var acc := Add(TimesX({}), Term(qs[0], g));
      if qs[0] {
        assert acc == g;
        MultipleDegree(g, width, acc, qs[1..], width);
      } else {
        assert acc == {};
        SmallMultipleIsZero(g, width, qs[1..]);
      }
    }
  }

  lemma {:induction false} LeadingZeros(g: Poly, qs: seq<bool>, n: nat)
    ensures Multiple(g, {}, seq(n, _ => false) + qs) == Multiple(g, {}, qs)
    decreases n
  {
    if n == 0 {
      assert seq(n, _ => false) + qs == qs;
    } else {
      assert (seq(n, _ => false) + qs)[1..] == seq(n - 1, _ => false) + qs;
      assert Add(TimesX({}), Term(false, g)) == {};
      LeadingZeros(g, qs, n - 1);
    }
  }

  function XorBits(s: seq<bool>, t: seq<bool>): seq<bool>
    requires |s| == |t|
  {
    seq(|s|, i requires 0 <= i < |s| => s[i] != t[i])
  }

  lemma {:induction false} MultipleSum(g: Poly, p: Poly, q: Poly, s: seq<bool>, t: seq<bool>)
    requires |s| == |t|
    ensures Add(Multiple(g, p, s), Multiple(g, q, t)) == Multiple(g, Add(p, q), XorBits(s, t))
    decreases |s|
  {
    if s != [] {
      var p', q' := Add(TimesX(p), Term(s[0], g)), Add(TimesX(q), Term(t[0], g));
      MultipleSum(g, p', q', s[1..], t[1..]);
      assert XorBits(s, t)[1..] == XorBits(s[1..], t[1..]);
      assert Add(p', q') == Add(TimesX(Add(p, q)), Term(s[0] != t[0], g));
    }
  }

  /** Division has one remainder: any two remainders of the same polynomial agree. */
  lemma RemainderUnique(p: Poly, g: Poly, width: nat, r1: Poly, r2: Poly)
    requires HasDegree(g, width)
    requires IsRemainder(p, g, width, r1) && IsRemainder(p, g, width, r2)
    ensures r1 == r2
  {
    var s: seq<bool> :| p == Add(Multiple(g, {}, s), r1);
    var t: seq<bool> :| p == Add(Multiple(g, {}, t), r2);
    var s' := seq(|t|, _ => false) + s;
    var t' := seq(|s|, _ => false) + t;
    LeadingZeros(g, s, |t|);
    LeadingZeros(g, t, |s|);
    MultipleSum(g, {}, {}, s', t');
    assert Add({}, {}) == {};
    var m := Multiple(g, {}, XorBits(s', t'));
    assert m == Add(r1, r2);
    SmallMultipleIsZero(g, width, XorBits(s', t'));
  }

  /** The dividend of a message: the seed above it, and width zero coefficients below. */
  function MessagePoly<T(!new)>(r: Register<T>, seed: T, bits: seq<bool>): Poly {
    Add(Scale(r.ToPoly(seed), |bits|), Scale(FromBits(bits), r.width))
  }

  /** Feeding a message computes its remainder, and nothing else is one. */
  lemma FeedIsTheRemainder<T(!new)>(r: Register<T>, seed: T, bits: seq<bool>, c: T)
    requires r.Lawful()
    ensures IsRemainder(MessagePoly(r, seed, bits), r.Generator(), r.width, r.ToPoly(c)) <==> c == r.Feed(seed, bits)
  {
    DividendMeaning(r.width, r.ToPoly(seed), bits);
    r.FeedIsRemainder(seed, bits);
    r.GeneratorDegree();
    var p := MessagePoly(r, seed, bits);
    if IsRemainder(p, r.Generator(), r.width, r.ToPoly(c)) {
      RemainderUnique(p, r.Generator(), r.width, r.ToPoly(c), r.ToPoly(r.Feed(seed, bits)));
      r.ToPolyInjective(c, r.Feed(seed, bits));
    }
  }

  // ---------------------------------------------------------------------------
  // Byte-wise lookup tables
  // ---------------------------------------------------------------------------

  /**
   * The byte-at-a-time view of a register: `low` extracts the next eight places, `first` is the
   * lookup table for them, and `high` moves the other places up by eight.
   */
  datatype Sliced<!T(!new)> = Sliced(zero: T, add: (T, T) -> T, first: T -> T, low: T -> T, high: T -> T) {

    /** One zero byte by a single lookup. */
    function ByteStep(c: T): T {
      add(first(low(c)), high(c))
    }

    function Bytes(c: T, k: nat): T
      decreases k, c
    {
      if k == 0 then c else Bytes(ByteStep(c), k - 1)
    }

    /** Table k: what a byte contributes k bytes after its lookup. */
    function Table(k: nat, b: T): T
      decreases k, b
    {
      if k == 0 then first(b)
      else var t := Table(k - 1, b); add(first(low(t)), high(t))
    }

    ghost predicate Linear() {
      && (forall a, b {:trigger add(ByteStep(a), ByteStep(b))} :: ByteStep(add(a, b)) == add(ByteStep(a), ByteStep(b)))
      && ByteStep(zero) == zero
      && (forall a {:trigger add(a, zero)} :: add(a, zero) == a)
    }

    lemma {:induction false} BytesLinear(a: T, b: T, k: nat)
      requires Linear()
      ensures Bytes(add(a, b), k) == add(Bytes(a, k), Bytes(b, k))
      ensures Bytes(zero, k) == zero
      decreases k
    {
      if k > 0 {
        var s := add(ByteStep(a), ByteStep(b));
        BytesLinear(ByteStep(a), ByteStep(b), k - 1);
      }
    }

    lemma {:induction false} BytesAppend(c: T, j: nat, k: nat)
      ensures Bytes(c, j + k) == Bytes(Bytes(c, j), k)
      decreases j
    {
      if j > 0 {
        BytesAppend(ByteStep(c), j - 1, k);
      }
    }

    lemma {:induction false} TableMeaning(k: nat, b: T)
      ensures Table(k, b) == Bytes(first(b), k)
      decreases k
    {
      if k > 0 {
        TableMeaning(k - 1, b);
        BytesAppend(first(b), k - 1, 1);
        var t := Table(k - 1, b);
        assert Bytes(t, 1) == Bytes(ByteStep(t), 0);
      }
    }

    /** The next byte is looked up, the rest keeps running. */
    lemma PeelByte(c: T, k: nat)
      requires Linear()
      ensures Bytes(c, k + 1) == add(Table(k, low(c)), Bytes(high(c), k))
    {
      BytesLinear(first(low(c)), high(c), k);
      TableMeaning(k, low(c));
    }

    /** Bytes fed one at a time, each added in front of its lookup. */
    function Fold(c: T, m: seq<T>): T
      decreases |m|
    {
      if m == [] then c else Fold(ByteStep(add(c, m[0])), m[1..])
    }

    lemma {:induction false} FoldAppend(c: T, s: seq<T>, t: seq<T>)
      ensures Fold(c, s + t) == Fold(Fold(c, s), t)
      decreases |s|
    {
      if s == [] {
        assert s + t == t;
      } else {
        assert (s + t)[1..] == s[1..] + t;
        FoldAppend(ByteStep(add(c, s[0])), s[1..], t);
      }
    }

    /** Word w is byte b in front of a word whose low place is clear; after b, `rest` is left. */
    ghost predicate Stacked(w: T, b: T, up: T, rest: T) {
      && ByteStep(up) == rest
      && (forall c {:trigger add(c, w)} :: add(c, w) == add(add(c, b), up))
    }

    lemma FeedOne(c: T, w: T, b: T, up: T, rest: T, k: nat)
      requires Linear() && Stacked(w, b, up, rest)
      ensures Bytes(add(c, w), k + 1) == Bytes(add(ByteStep(add(c, b)), rest), k)
    {
      var s := add(ByteStep(add(c, b)), ByteStep(up));
    }

    lemma FoldFour(c: T, b0: T, b1: T, b2: T, b3: T)
      ensures Fold(c, [b0, b1, b2, b3]) == ByteStep(add(ByteStep(add(ByteStep(add(ByteStep(add(c, b0)), b1)), b2)), b3))
    {
      var c1 := ByteStep(add(c, b0));
      var c2 := ByteStep(add(c1, b1));
      assert Fold(c, [b0, b1, b2, b3]) == Fold(c1, [b1, b2, b3]) == Fold(c2, [b2, b3]);
      assert Fold(c2, [b2, b3]) == Fold(ByteStep(add(c2, b2)), [b3]);
    }

    /** Adding a whole word and running is feeding its bytes. */
    lemma FeedWord(c: T, w0: T, w1: T, w2: T, w3: T, b0: T, b1: T, b2: T, b3: T, u0: T, u1: T, u2: T, u3: T)
      requires Linear()
      requires Stacked(w0, b0, u0, w1) && Stacked(w1, b1, u1, w2) && Stacked(w2, b2, u2, w3)
          && Stacked(w3, b3, u3, zero)
      ensures Fold(c, [b0, b1, b2, b3]) == Bytes(add(c, w0), 4)
    {
      var c1 := ByteStep(add(c, b0));
      var c2 := ByteStep(add(c1, b1));
      var c3 := ByteStep(add(c2, b2));
      FeedOne(c, w0, b0, u0, w1, 3);
      FeedOne(c1, w1, b1, u1, w2, 2);
      FeedOne(c2, w2, b2, u2, w3, 1);
      FeedOne(c3, w3, b3, u3, zero, 0);
      FoldFour(c, b0, b1, b2, b3);
    }

    /** Two words in a row: the first runs eight bytes, the second four. */
    lemma TwoWords(c: T, w: T)
      requires Linear()
      ensures Bytes(add(Bytes(c, 4), w), 4) == add(Bytes(c, 8), Bytes(w, 4))
    {
      BytesLinear(Bytes(c, 4), w, 4);
      BytesAppend(c, 4, 4);
    }

    /** Running a word of four bytes is four lookups. */
    lemma PeelWord(c: T, c1: T, c2: T, c3: T, k: nat)
      requires Linear()
      requires c1 == high(c) && c2 == high(c1) && c3 == high(c2) && high(c3) == zero
      ensures Bytes(c, k + 4) ==
              add(Table(k + 3, low(c)), add(Table(k + 2, low(c1)), add(Table(k + 1, low(c2)), Table(k, low(c3)))))
    {
      PeelByte(c, k + 3);
      PeelByte(c1, k + 2);
      PeelByte(c2, k + 1);
      PeelByte(c3, k);
      BytesLinear(zero, zero, k);
    }
  }

  // ---------------------------------------------------------------------------
  // Two registers that are images of each other
  // ---------------------------------------------------------------------------

  ghost predicate Mirrors<T(!new), U(!new)>(r: Register<T>, s: Register<U>, m: T -> U) {
    && m(r.zero) == s.zero && m(r.unit) == s.unit && m(r.feedback) == s.feedback
    && (forall a, b {:trigger r.add(a, b)} :: m(r.add(a, b)) == s.add(m(a), m(b)))
    && (forall a {:trigger s.lead(m(a))} :: s.lead(m(a)) == r.lead(a))
    && (forall a {:trigger s.shift(m(a))} :: s.shift(m(a)) == m(r.shift(a)))
  }

  lemma StepMirrored<T(!new), U(!new)>(r: Register<T>, s: Register<U>, m: T -> U, c: T, b: bool)
    requires Mirrors(r, s, m)
    ensures s.Step(s.add(m(c), s.Bit(b))) == m(r.Step(r.add(c, r.Bit(b))))
  {
    var x := r.add(c, r.Bit(b));
    assert m(x) == s.add(m(c), s.Bit(b));
    assert m(r.add(r.shift(x), r.feedback)) == s.add(m(r.shift(x)), s.feedback);
  }

  lemma {:induction false} FeedMirrored<T(!new), U(!new)>(r: Register<T>, s: Register<U>, m: T -> U, c: T,
      bits: seq<bool>)
    requires Mirrors(r, s, m)
    ensures s.Feed(m(c), bits) == m(r.Feed(c, bits))
    decreases |bits|
  {
    hide Mirrors;
    if bits != [] {
      StepMirrored(r, s, m, c, bits[0]);
      FeedMirrored(r, s, m, r.Step(r.add(c, r.Bit(bits[0]))), bits[1..]);
    }
  }
}
