/** The ledger generator of testdata_asn1.py: credit deltas, signed items and the hash chain between them. */
module Generator {
  import opened Bytes
  import opened Endian
  import opened Schema
  import opened LedgerValues
  import opened LedgerOperations
  import opened Protocol

  const CREDIT_MIN := 1000
  const CREDIT_MAX := 10000

  datatype Role = Alice | Bob

  /** The outcomes of the random calls of one delta: the coin, and a pick from 1..n for credit and for collateral. */
  datatype Random = Random(coin: bool, credit: int -> int, collateral: int -> int)

  ghost predicate Fair(r: Random) {
    forall n :: n >= 1 ==> 1 <= r.credit(n) <= n && 1 <= r.collateral(n) <= n
  }

  /** The fields of LedgerGenerator. */
  datatype Gen = Gen(creditAlice: int, creditBob: int, collateralAlice: int, collateralBob: int, count: nat) {
    function Total(): int {
      creditAlice + creditBob
    }
  }

  datatype Emission = Emission(credit: int, collateral: int, isBob: bool) {
    predicate InRange() { -CREDIT_MAX <= credit <= CREDIT_MAX && 0 <= collateral <= CREDIT_MAX }
    function CreditOf(r: Role): int { if isBob == r.Bob? then credit else 0 }
    function CollateralOf(r: Role): int { if isBob == r.Bob? then collateral else 0 }
  }

  ghost predicate AllInRange(es: seq<Emission>) {
    forall i :: 0 <= i < |es| ==> es[i].InRange()
  }

  /** OverflowError ("broke") ends a generation; a random range without values is a ValueError. */
  datatype Result = Emitted(e: Emission) | Broke | EmptyRange

  datatype GenStep = GenStep(gen: Gen, result: Result)

  function Spend(g: Gen, isBob: bool, amount: int): Gen {
    if isBob then g.(creditBob := g.creditBob - amount) else g.(creditAlice := g.creditAlice - amount)
  }

  function Pledge(g: Gen, isBob: bool, amount: int): Gen {
    if isBob then g.(collateralBob := g.collateralBob - amount) else g.(collateralAlice := g.collateralAlice - amount)
  }

  /** LedgerGenerator.delta (testdata_asn1.py:311-386). */
  function DeltaStep(g: Gen, collateral: bool, credit: bool, role: Option<Role>, rnd: Random): GenStep {
    var initial :=
      if g.count >= 2 then None else if role.Some? then role else Some(if g.count == 0 then Alice else Bob);
    var grant := if initial == Some(Alice) then g.creditAlice else if initial == Some(Bob) then g.creditBob else 0;
    var grantCollateral :=
      if initial == Some(Alice) then g.collateralAlice else if initial == Some(Bob) then g.collateralBob else 0;
    if initial == None && g.creditBob == 0 && g.creditAlice == 0 then GenStep(g, Broke)
    else if grant != 0 then
      GenStep(g.(count := g.count + 1), Emitted(Emission(grant, grantCollateral, initial == Some(Bob))))
    else if g.creditBob == 0 && role == Some(Bob) then GenStep(g, Broke)
    else
      var drawn := if role == None then rnd.coin else role == Some(Alice) || initial == Some(Bob);
      var isBob := if g.creditBob == 0 then false else if g.creditAlice == 0 then true else drawn;
      Draw(g, isBob, collateral, credit, grantCollateral, rnd)
  }

  /** ... its second half, once it is settled who gives something away. */
  function Draw(g: Gen, isBob: bool, collateral: bool, credit: bool, grantCollateral: int, rnd: Random): GenStep {
    var left := if isBob then g.creditBob else g.creditAlice;
    var pledged := if isBob then g.collateralBob else g.collateralAlice;
    if credit && left < 1 then GenStep(g, EmptyRange)
    else
      var g1 := if credit then Spend(g, isBob, rnd.credit(left)) else g;
      if collateral && pledged < 1 then GenStep(g1, EmptyRange)
      else
        var g2 := if collateral then Pledge(g1, isBob, rnd.collateral(pledged)) else g1;
        GenStep(g2.(count := g.count + 1),
                Emitted(Emission(if credit then -rnd.credit(left) else 0,
                                 if collateral then -rnd.collateral(pledged) else grantCollateral, isBob)))
  }

  class LedgerGenerator {
    var creditAlice: int
    var creditBob: int
    var collateralAlice: int
    var collateralBob: int
    var count: nat

    function View(): Gen
      reads this
    {
      Gen(creditAlice, creditBob, collateralAlice, collateralBob, count)
    }

    constructor (creditAlice: int, creditBob: int, collateralAlice: int, collateralBob: int)
      ensures View() == Gen(creditAlice, creditBob, collateralAlice, collateralBob, 0)
    {
      this.creditAlice, this.creditBob := creditAlice, creditBob;
      this.collateralAlice, this.collateralBob := collateralAlice, collateralBob;
      count := 0;
    }

    /** LedgerGenerator.delta (testdata_asn1.py:311-386). */
    method Delta(collateral: bool, credit: bool, role: Option<Role>, rnd: Random) returns (r: Result)
      modifies this
      ensures GenStep(View(), r) == DeltaStep(old(View()), collateral, credit, role, rnd)
    {
      var deltaCredit, deltaCollateral := 0, 0;
      var isBob := false;
      var initial: Option<Role> := None;
      if count < 2 {
        if role.None? {
          if count == 0 { initial := Some(Alice); } else { initial := Some(Bob); }
        } else {
          initial := role;
        }
      }
      if initial.Some? {
        if initial.value.Alice? {
          deltaCredit, deltaCollateral := creditAlice, collateralAlice;
        } else {
          deltaCredit, deltaCollateral, isBob := creditBob, collateralBob, true;
        }
      } else if creditBob == 0 && creditAlice == 0 {
        return Broke;
      }
      if deltaCredit == 0 {
        if role.None? {
          isBob := rnd.coin;
        } else if role.value.Alice? {
          isBob := true;
        }
        if creditBob == 0 {
          if role == Some(Bob) {
            return Broke;
          }
          isBob := false;
        } else if creditAlice == 0 {
          isBob := true;
        }
        r := DrawDelta(isBob, collateral, credit, deltaCollateral, rnd);
        return;
      }
      hide Draw;
      count := count + 1;
      return Emitted(Emission(deltaCredit, deltaCollateral, isBob));
    }

    /** Its second half (testdata_asn1.py:350-365, :382), once it is settled who gives something away. */
    method DrawDelta(isBob: bool, collateral: bool, credit: bool, grantCollateral: int, rnd: Random) returns (r: Result)
      modifies this
      ensures GenStep(View(), r) == Draw(old(View()), isBob, collateral, credit, grantCollateral, rnd)
    {
      var deltaCredit, deltaCollateral := 0, grantCollateral;
      if credit {
        var left := if isBob then creditBob else creditAlice;
        if left < 1 {
          return EmptyRange;
        }
        deltaCredit := -rnd.credit(left);
        if isBob { creditBob := creditBob + deltaCredit; } else { creditAlice := creditAlice + deltaCredit; }
      }
      if collateral {
        var pledged := if isBob then collateralBob else collateralAlice;
        if pledged < 1 {
          return EmptyRange;
        }
        deltaCollateral := -rnd.collateral(pledged);
        if isBob {
          collateralBob := collateralBob + deltaCollateral;
        } else {
          collateralAlice := collateralAlice + deltaCollateral;
        }
      }
      count := count + 1;
      return Emitted(Emission(deltaCredit, deltaCollateral, isBob));
    }
  }

  /** What a delta after the grants takes, for every way of calling: it comes from one party, in the drawn amount, and
      the books move by exactly what is emitted. Which party: the only one with credit, if there is only one;
      otherwise the coin's when no signer is named, and Bob when Alice is (and the other way round). */
  lemma LaterDelta(g: Gen, collateral: bool, credit: bool, role: Option<Role>, rnd: Random)
    requires g.count >= 2 && DeltaStep(g, collateral, credit, role, rnd).result.Emitted?
    ensures var s := DeltaStep(g, collateral, credit, role, rnd);
            var e := s.result.e;
            var left := if e.isBob then g.creditBob else g.creditAlice;
            var pledged := if e.isBob then g.collateralBob else g.collateralAlice;
            && e.credit == (if credit then -rnd.credit(left) else 0)
            && e.collateral == (if collateral then -rnd.collateral(pledged) else 0)
            && s.gen == Gen(g.creditAlice + e.CreditOf(Alice), g.creditBob + e.CreditOf(Bob),
                            g.collateralAlice + e.CollateralOf(Alice), g.collateralBob + e.CollateralOf(Bob),
                            g.count + 1)
            && (g.creditAlice != 0 || g.creditBob != 0)
            && (g.creditBob == 0 ==> !e.isBob && role != Some(Bob))
            && (g.creditBob != 0 && g.creditAlice == 0 ==> e.isBob)
            && (g.creditBob != 0 && g.creditAlice != 0 ==>
                  e.isBob == match role case None => rnd.coin case Some(r) => r == Alice)
  {
  }

  /** The first two deltas grant: each party's whole credit and collateral, Alice first unless a signer is named, and no
      balance moves. */
  lemma GrantDelta(g: Gen, collateral: bool, credit: bool, role: Option<Role>, rnd: Random)
    requires g.count < 2 && g.creditAlice != 0 && g.creditBob != 0
    ensures var bob := if role == None then g.count == 1 else role == Some(Bob);
            DeltaStep(g, collateral, credit, role, rnd)
            == GenStep(g.(count := g.count + 1),
                       Emitted(Emission(if bob then g.creditBob else g.creditAlice,
                                        if bob then g.collateralBob else g.collateralAlice, bob)))
  {
    match role
    case None =>
    case Some(r) => assert r == Alice || r == Bob;
  }

  /** When a delta is refused: both broke, or Bob named with nothing left; an empty range only where the drawn party has
      less than one. */
  lemma RefusedDelta(g: Gen, collateral: bool, credit: bool, role: Option<Role>, rnd: Random)
    requires g.count >= 2
    ensures DeltaStep(g, collateral, credit, role, rnd).result == Broke
            <==> (g.creditAlice == 0 && g.creditBob == 0) || (g.creditBob == 0 && role == Some(Bob))
    ensures DeltaStep(g, collateral, credit, role, rnd).result == Broke ==>
              DeltaStep(g, collateral, credit, role, rnd).gen == g
  {
  }

  /** The only other failure is a random range without values, for what the drawn party has left; credit is drawn, and
      stays spent, before collateral is. */
  lemma EmptyRangeDelta(g: Gen, collateral: bool, credit: bool, role: Option<Role>, rnd: Random)
    requires g.count >= 2 && (g.creditAlice != 0 || g.creditBob != 0) && !(g.creditBob == 0 && role == Some(Bob))
    ensures var s := DeltaStep(g, collateral, credit, role, rnd);
            var coin := match role case None => rnd.coin case Some(r) => r == Alice;
            var bob := g.creditBob != 0 && (g.creditAlice == 0 || coin);
            var left := if bob then g.creditBob else g.creditAlice;
            var pledged := if bob then g.collateralBob else g.collateralAlice;
            && (s.result == EmptyRange <==> (credit && left < 1) || (collateral && pledged < 1))
            && (s.result == EmptyRange ==> s.gen == if credit && left >= 1 then Spend(g, bob, rnd.credit(left)) else g)
  {
  }

  // ---- conservation on the default path

  function DefaultDelta(g: Gen, rnd: Random): GenStep {
    DeltaStep(g, false, true, None, rnd)
  }

  datatype GenRun = GenRun(gen: Gen, emitted: seq<Emission>, broke: bool)

  /** One delta after the other until one raises OverflowError. */
  function RunGen(g: Gen, rnds: seq<Random>): GenRun {
    if rnds == [] then GenRun(g, [], false)
    else
      var before := RunGen(g, rnds[..|rnds| - 1]);
      if before.broke then before
      else
        var s := DefaultDelta(before.gen, rnds[|rnds| - 1]);
        match s.result
        case Emitted(e) => GenRun(s.gen, before.emitted + [e], false)
        case _ => GenRun(s.gen, before.emitted, true)
  }

  function SumCredit(es: seq<Emission>, r: Role): int {
    if es == [] then 0 else SumCredit(es[..|es| - 1], r) + es[|es| - 1].CreditOf(r)
  }

  function SumCollateral(es: seq<Emission>, r: Role): int {
    if es == [] then 0 else SumCollateral(es[..|es| - 1], r) + es[|es| - 1].CollateralOf(r)
  }

  /** A generator as its constructor leaves it. */
  ghost predicate FreshGen(g: Gen) {
    && CREDIT_MIN <= g.creditAlice <= CREDIT_MAX && CREDIT_MIN <= g.creditBob <= CREDIT_MAX
    && CREDIT_MIN <= g.collateralAlice <= CREDIT_MAX && CREDIT_MIN <= g.collateralBob <= CREDIT_MAX && g.count == 0
  }

  ghost predicate AllFair(rnds: seq<Random>) {
    forall i :: 0 <= i < |rnds| ==> Fair(rnds[i])
  }

  /** The books are balanced after `es`: what each party was granted and gave away is what it has left. */
  ghost predicate Balanced(g0: Gen, g: Gen, es: seq<Emission>) {
    && g.count == |es|
    && SumCredit(es, Alice) == (if |es| >= 1 then g.creditAlice else 0)
    && SumCredit(es, Bob) == (if |es| >= 2 then g.creditBob else 0)
    && SumCollateral(es, Alice) == (if |es| >= 1 then g.collateralAlice else 0)
    && SumCollateral(es, Bob) == (if |es| >= 2 then g.collateralBob else 0)
    && g.collateralAlice == g0.collateralAlice && g.collateralBob == g0.collateralBob
    && 0 <= g.creditAlice <= g0.creditAlice && 0 <= g.creditBob <= g0.creditBob
    && (|es| <= 2 ==> g.creditAlice == g0.creditAlice && g.creditBob == g0.creditBob)
    && (|es| >= 2 ==> |es| - 2 <= g0.Total() - g.Total())
    && AllInRange(es)
  }

  lemma SumStep(es: seq<Emission>, e: Emission)
    ensures SumCredit(es + [e], Alice) == SumCredit(es, Alice) + e.CreditOf(Alice)
    ensures SumCredit(es + [e], Bob) == SumCredit(es, Bob) + e.CreditOf(Bob)
    ensures SumCollateral(es + [e], Alice) == SumCollateral(es, Alice) + e.CollateralOf(Alice)
    ensures SumCollateral(es + [e], Bob) == SumCollateral(es, Bob) + e.CollateralOf(Bob)
  {
    assert (es + [e])[..|es|] == es;
  }

  /** Every delta after the two grants takes at least one unit from a party that has one; the generator stops exactly
      when nobody has anything left, and never on an empty range. */
  lemma DeltaKeepsBalance(g0: Gen, g: Gen, es: seq<Emission>, rnd: Random)
    requires FreshGen(g0) && Balanced(g0, g, es) && Fair(rnd)
    ensures var s := DefaultDelta(g, rnd);
            match s.result
            case Emitted(e) => Balanced(g0, s.gen, es + [e]) && (|es| >= 2 ==> s.gen.Total() <= g.Total() - 1)
            case Broke => s.gen == g && |es| >= 2 && g.Total() == 0
            case EmptyRange => false
  {
    var s := DefaultDelta(g, rnd);
    if s.result.Emitted? {
      SumStep(es, s.result.e);
      DeltaKeepsSums(g0, g, es, rnd);
      hide SumCredit, SumCollateral;
    }
  }

  lemma DeltaKeepsSums(g0: Gen, g: Gen, es: seq<Emission>, rnd: Random)
    requires FreshGen(g0) && Balanced(g0, g, es) && DefaultDelta(g, rnd).result.Emitted?
    ensures var s := DefaultDelta(g, rnd);
            && (|es| == 0 ==>
                  s.gen == g.(count := 1) && s.result.e == Emission(g.creditAlice, g.collateralAlice, false))
            && (|es| == 1 ==> s.gen == g.(count := 2) && s.result.e == Emission(g.creditBob, g.collateralBob, true))
            && (|es| >= 2 ==> s.result.e.collateral == 0)
            && (|es| >= 2 ==> s.gen == Spend(g, s.result.e.isBob, -s.result.e.credit).(count := g.count + 1))
  {
    hide SumCredit, SumCollateral;
  }

  /** Conservation and termination: over every run each party's emitted deltas sum to its remaining credit, no balance
      is ever negative, and the number of items is bounded by two plus the credit granted; a longer run ends. */
  lemma {:induction false} GeneratorConserves(g0: Gen, rnds: seq<Random>)
    requires FreshGen(g0) && AllFair(rnds)
    ensures var r := RunGen(g0, rnds);
            && Balanced(g0, r.gen, r.emitted)
            && |r.emitted| <= 2 + g0.Total() && |r.emitted| <= |rnds|
            && (r.broke ==> r.gen.Total() == 0)
            && (!r.broke ==> |r.emitted| == |rnds|)
            && (|rnds| > 2 + g0.Total() ==> r.broke)
  {
    if rnds != [] {
      var n := |rnds| - 1;
      GeneratorConserves(g0, rnds[..n]);
      var before := RunGen(g0, rnds[..n]);
      DeltaKeepsBalance(g0, before.gen, before.emitted, rnds[n]);
    }
  }

  // ---- items and their chain

  /** The two key holders, the head digest both sign under, and the hash. */
  datatype Context = Context(env: Env, headDigest: Digest, alice: Signer, bob: Signer) {
    function SignAs(isBob: bool, message: seq<byte>): Digest {
      var s := (if isBob then bob else alice).sign(env.hash(message));
      if s.Some? then s.value else ZERO
    }
  }

  /** What one item takes from outside the generator: random draws, the clock, the content digest. */
  datatype Input = Input(random: Random, sec: uint32, nsec: uint32, body: Digest)

  type Stored = s: seq<byte> | s != [] witness [0]

  datatype Generated = Generated(digest: Digest, bytes: Stored, entry: Entry, flag: byte)

  /** LedgerItem.to_asn1 before any signature (testdata_asn1.py:480-494). */
  function Unsigned(parent: Digest, e: Emission, i: Input): Entry
    requires e.InRange()
  {
    Entry(parent, Word(i.sec) + Word(i.nsec), IntOctets(e.credit), IntOctets(e.collateral), i.body, [], false, [])
  }

  /** ... after the first signer. */
  function Requested(c: Context, parent: Digest, e: Emission, i: Input): Entry
    requires e.InRange()
  {
    var o := Unsigned(parent, e, i);
    o.(signatureRequest := c.SignAs(e.isBob, c.headDigest + EncodeEntry(o)), response := true)
  }

  /** LedgerItem.to_asn1 and serialize in FINAL mode, and generate_ledger_item (testdata_asn1.py:480-553). */
  function MakeItem(c: Context, parent: Digest, e: Emission, i: Input): Generated
    requires e.InRange()
  {
    var o := Requested(c, parent, e, i);
    var entry := o.(signatureResponse := c.SignAs(!e.isBob, c.headDigest + EncodeEntry(o)));
    var flag: byte := if e.isBob then 1 else 0;
    Generated(c.env.hash(EncodeEntry(entry) + [flag]), EncodeEntry(entry) + [flag], entry, flag)
  }

  /** What the next item refers to: the digest of the last one, zeros if there is none. */
  function Tip(items: seq<Generated>): Digest {
    if items == [] then ZERO else items[|items| - 1].digest
  }

  /** The items of generate_ledger, given what the generator emitted. */
  function Items(c: Context, es: seq<Emission>, inputs: seq<Input>): (items: seq<Generated>)
    requires |es| <= |inputs| && AllInRange(es)
    ensures |items| == |es|
  {
    if es == [] then []
    else
      var n := |es| - 1;
      var before := Items(c, es[..n], inputs);
      before + [MakeItem(c, Tip(before), es[n], inputs[n])]
  }

  lemma ItemsGrow(c: Context, es: seq<Emission>, e: Emission, inputs: seq<Input>)
    requires |es| < |inputs| && AllInRange(es) && e.InRange()
    ensures AllInRange(es + [e])
    ensures var before := Items(c, es, inputs);
            Items(c, es + [e], inputs) == before + [MakeItem(c, Tip(before), e, inputs[|es|])]
  {
    hide MakeItem, Tip;
    assert (es + [e])[..|es|] == es && (es + [e])[|es|] == e;
  }

  lemma RunGrow(g: Gen, rnds: seq<Random>, i: nat)
    requires i < |rnds| && !RunGen(g, rnds[..i]).broke
    ensures var before := RunGen(g, rnds[..i]);
            var s := DefaultDelta(before.gen, rnds[i]);
            RunGen(g, rnds[..i + 1])
            == if s.result.Emitted? then GenRun(s.gen, before.emitted + [s.result.e], false)
               else GenRun(s.gen, before.emitted, true)
  {
    hide DefaultDelta;
    assert rnds[..i + 1][..i] == rnds[..i];
  }

  function Draws(inputs: seq<Input>): (r: seq<Random>)
    ensures |r| == |inputs|
  {
    seq(|inputs|, i requires 0 <= i < |inputs| => inputs[i].random)
  }

  /** After `i` items: the run so far and its items. */
  ghost predicate Progress(c: Context, g0: Gen, g: Gen, inputs: seq<Input>, es: seq<Emission>, items: seq<Generated>,
      i: nat) {
    && |items| == |es| == i <= |inputs| && FreshGen(g0) && Balanced(g0, g, es) && AllInRange(es)
    && RunGen(g0, Draws(inputs)[..i]) == GenRun(g, es, false)
    && items == Items(c, es, inputs)
  }

  /** `g` and `items` are what the whole run over `inputs` leads to. */
  ghost predicate Produced(c: Context, g0: Gen, g: Gen, inputs: seq<Input>, items: seq<Generated>) {
    var run := RunGen(g0, Draws(inputs));
    && g == run.gen && Balanced(g0, g, run.emitted) && |run.emitted| <= |inputs| && AllInRange(run.emitted)
    && items == Items(c, run.emitted, inputs)
  }

  lemma ProgressStart(c: Context, g: Gen, inputs: seq<Input>)
    requires FreshGen(g)
    ensures Progress(c, g, g, inputs, [], [], 0)
  {
    assert Draws(inputs)[..0] == [];
  }

  lemma ProgressEnd(c: Context, g0: Gen, g: Gen, inputs: seq<Input>, es: seq<Emission>, items: seq<Generated>)
    requires Progress(c, g0, g, inputs, es, items, |inputs|)
    ensures Produced(c, g0, g, inputs, items)
  {
    hide Items, RunGen, Balanced;
    assert Draws(inputs)[..|inputs|] == Draws(inputs);
  }

  lemma ProgressStep(c: Context, g0: Gen, g: Gen, inputs: seq<Input>, es: seq<Emission>, items: seq<Generated>, i: nat)
    requires Progress(c, g0, g, inputs, es, items, i) && i < |inputs| && Fair(inputs[i].random)
    ensures var s := DefaultDelta(g, inputs[i].random);
            if s.result.Emitted? then
              && s.result.e.InRange()
              && Progress(c, g0, s.gen, inputs, es + [s.result.e],
                 items + [MakeItem(c, Tip(items), s.result.e, inputs[i])], i + 1)
            else
              s.gen == g && s.result.Broke? && Produced(c, g0, g, inputs, items)
  {
    hide MakeItem, FreshGen, DefaultDelta, RunGen, Items, Tip, Fair, SumCredit, SumCollateral;
    var rnds := Draws(inputs);
    var s := DefaultDelta(g, inputs[i].random);
    DeltaKeepsBalance(g0, g, es, inputs[i].random);
    RunGrow(g0, rnds, i);
    if s.result.Emitted? {
      assert (es + [s.result.e])[i].InRange();
      ItemsGrow(c, es, s.result.e, inputs);
    } else {
      StaysBroke(g0, rnds, i + 1);
    }
  }

  /** generate_ledger (testdata_asn1.py:556-582), the items without the head. */
  method GenerateLedger(c: Context, generator: LedgerGenerator, inputs: seq<Input>) returns (r: seq<Generated>)
    requires FreshGen(generator.View()) && forall i :: 0 <= i < |inputs| ==> Fair(inputs[i].random)
    modifies generator
    ensures Produced(c, old(generator.View()), generator.View(), inputs, r)
  {
    hide *;
    ghost var g0 := generator.View();
    ghost var es: seq<Emission> := [];
    var parent := ZERO;
    r := [];
    var i := 0;
    ProgressStart(c, g0, inputs);
    NoTip();
    while i < |inputs|
      invariant 0 <= i <= |inputs|
      invariant Progress(c, g0, generator.View(), inputs, es, r, i) && parent == Tip(r)
    {
      ProgressStep(c, g0, generator.View(), inputs, es, r, i);
      DefaultIs(generator.View(), inputs[i].random);
      var d := generator.Delta(false, true, None, inputs[i].random);
      if !d.Emitted? {
        return;
      }
      es := es + [d.e];
      var item := MakeItem(c, parent, d.e, inputs[i]);
      TipOf(r, item);
      parent := item.digest;
      r := r + [item];
      i := i + 1;
    }
    ProgressEnd(c, g0, generator.View(), inputs, es, r);
  }

  lemma DefaultIs(g: Gen, rnd: Random)
    ensures DefaultDelta(g, rnd) == DeltaStep(g, false, true, None, rnd)
  {
  }

  lemma NoTip()
    ensures Tip([]) == ZERO
  {
  }

  lemma TipOf(items: seq<Generated>, g: Generated)
    ensures Tip(items + [g]) == g.digest
  {
  }

  /** Once broke, a run does not change any more. */
  lemma {:induction false} StaysBroke(g: Gen, rnds: seq<Random>, k: nat)
    requires k <= |rnds| && RunGen(g, rnds[..k]).broke
    ensures RunGen(g, rnds) == RunGen(g, rnds[..k])
  {
    if k == |rnds| {
      assert rnds[..k] == rnds;
    } else {
      assert rnds[..|rnds| - 1][..k] == rnds[..k];
      StaysBroke(g, rnds[..|rnds| - 1], k);
    }
  }

  // ---- the hash chain

  /** Each item's digest is that of its bytes, initiator flag included, and is the next item's parent; the first item's
      parent is zero. */
  ghost predicate Linked(env: Env, items: seq<Generated>) {
    && (forall i :: 0 <= i < |items| ==> Sealed(env, items[i]))
    && (items != [] ==> items[0].entry.parent == ZERO)
    && (forall i {:trigger items[i].entry} :: 1 <= i < |items| ==> items[i].entry.parent == items[i - 1].digest)
  }

  ghost predicate Sealed(env: Env, g: Generated) {
    g.bytes == EncodeEntry(g.entry) + [g.flag] && Encodable(g.entry) && g.digest == env.hash(g.bytes)
  }

  lemma MadeItemEncodes(c: Context, parent: Digest, e: Emission, i: Input)
    requires e.InRange()
    ensures Encodable(Requested(c, parent, e, i)) && |EncodeEntry(Requested(c, parent, e, i))| <= 1024
    ensures Encodable(MakeItem(c, parent, e, i).entry)
  {
    EntrySize(Requested(c, parent, e, i));
    EntrySize(MakeItem(c, parent, e, i).entry);
  }

  lemma {:induction false} GeneratedIsLinked(c: Context, es: seq<Emission>, inputs: seq<Input>)
    requires |es| <= |inputs| && AllInRange(es)
    ensures Linked(c.env, Items(c, es, inputs))
  {
    hide *;
    if es == [] {
      NothingLinked(c, inputs);
    } else {
      PrefixInRange(es);
      GeneratedIsLinked(c, es[..|es| - 1], inputs);
      LinkOne(c, es, inputs);
    }
  }

  lemma NothingLinked(c: Context, inputs: seq<Input>)
    ensures Linked(c.env, Items(c, [], inputs))
  {
  }

  lemma LinkOne(c: Context, es: seq<Emission>, inputs: seq<Input>)
    requires 0 < |es| <= |inputs| && AllInRange(es) && AllInRange(es[..|es| - 1])
    requires Linked(c.env, Items(c, es[..|es| - 1], inputs))
    ensures Linked(c.env, Items(c, es, inputs))
  {
    hide *;
    var n := |es| - 1;
    PrefixInRange(es);
    var before := Items(c, es[..n], inputs);
    ItemsGrow(c, es[..n], es[n], inputs);
    MadeItemIsSealed(c, Tip(before), es[n], inputs[n]);
    LinkedGrow(c.env, before, MakeItem(c, Tip(before), es[n], inputs[n]));
  }

  lemma LinkedGrow(env: Env, items: seq<Generated>, g: Generated)
    requires Linked(env, items) && Sealed(env, g) && g.entry.parent == Tip(items)
    ensures Linked(env, items + [g])
  {
    hide Sealed;
  }

  lemma MadeItemIsSealed(c: Context, parent: Digest, e: Emission, i: Input)
    requires e.InRange()
    ensures Sealed(c.env, MakeItem(c, parent, e, i)) && MakeItem(c, parent, e, i).entry.parent == parent
  {
    MadeItemEncodes(c, parent, e, i);
  }

  ghost predicate Collision(env: Env, a: seq<Generated>, b: seq<Generated>) {
    exists i, j :: 0 <= i < |a| && 0 <= j < |b| && Collides(env, a[i].bytes, b[j].bytes)
  }

  ghost predicate ZeroDigest(items: seq<Generated>) {
    exists i :: 0 <= i < |items| && items[i].digest == ZERO
  }

  /** The tip digest pins down the whole chain: two linked chains with the same tip are equal item by item, or a hash
      collision between their items or an item whose digest is zero is at hand. */
  lemma {:induction false} SameTipSameChain(env: Env, a: seq<Generated>, b: seq<Generated>)
    requires Linked(env, a) && Linked(env, b) && a != [] && b != []
    requires a[|a| - 1].digest == b[|b| - 1].digest
    ensures a == b || Collision(env, a, b) || ZeroDigest(a) || ZeroDigest(b)
    decreases |a|
  {
    hide *;
    var n, m := |a| - 1, |b| - 1;
    SameTip(env, a, b);
    if !Collision(env, a, b) && !ZeroDigest(a) && !ZeroDigest(b) && n > 0 {
      SameTipSameChain(env, a[..n], b[..m]);
      Widen(env, a, b, n, m);
      assert a == a[..n] + [a[n]] && b == b[..m] + [b[m]];
    }
  }

  /** One step back from two equal tips. */
  lemma SameTip(env: Env, a: seq<Generated>, b: seq<Generated>)
    requires Linked(env, a) && Linked(env, b) && a != [] && b != []
    requires a[|a| - 1].digest == b[|b| - 1].digest
    ensures var n, m := |a| - 1, |b| - 1;
            || Collision(env, a, b) || ZeroDigest(a) || ZeroDigest(b)
            || (n == m == 0 && a == b)
            || (n > 0 && m > 0 && a[n] == b[m] && Linked(env, a[..n]) && Linked(env, b[..m])
                  && a[..n][n - 1].digest == b[..m][m - 1].digest)
  {
    hide EncodeEntry, DecodeEntry, Encodable;
    var n, m := |a| - 1, |b| - 1;
    if a[n].bytes != b[m].bytes {
      assert Collides(env, a[n].bytes, b[m].bytes);
    } else {
      SameBytesSameItem(env, a[n], b[m]);
      if n > 0 && m == 0 {
        assert a[n - 1].digest == ZERO;
      } else if n == 0 && m > 0 {
        assert b[m - 1].digest == ZERO;
      } else if n == 0 {
        assert a == [a[0]] && b == [b[0]];
      }
    }
  }

  lemma SameBytesSameItem(env: Env, a: Generated, b: Generated)
    requires a.bytes == b.bytes && Sealed(env, a) && Sealed(env, b)
    ensures a == b
  {
    var n := |a.bytes| - 1;
    assert EncodeEntry(a.entry) == a.bytes[..n] && EncodeEntry(b.entry) == b.bytes[..n];
    assert a.flag == a.bytes[n] && b.flag == b.bytes[n];
    EntryInjective(a.entry, b.entry);
  }

  lemma Widen(env: Env, a: seq<Generated>, b: seq<Generated>, n: nat, m: nat)
    requires n <= |a| && m <= |b|
    ensures Collision(env, a[..n], b[..m]) ==> Collision(env, a, b)
    ensures ZeroDigest(a[..n]) ==> ZeroDigest(a)
    ensures ZeroDigest(b[..m]) ==> ZeroDigest(b)
  {
    if Collision(env, a[..n], b[..m]) {
      var i, j :| 0 <= i < n && 0 <= j < m && Collides(env, a[..n][i].bytes, b[..m][j].bytes);
      assert Collides(env, a[i].bytes, b[j].bytes);
    }
    if ZeroDigest(a[..n]) {
      var i :| 0 <= i < n && a[..n][i].digest == ZERO;
      assert a[i].digest == ZERO;
    }
    if ZeroDigest(b[..m]) {
      var i :| 0 <= i < m && b[..m][i].digest == ZERO;
      assert b[i].digest == ZERO;
    }
  }

  // ---- generated items in the C reader

  /** What the C parser makes of a generated item. */
  function ParsedForm(c: Context, parent: Digest, e: Emission, i: Input): Item
    requires e.InRange()
  {
    var g := MakeItem(c, parent, e, i).entry;
    BLANK.(initiator := if e.isBob then BOB else ALICE, sec := i.sec, nsec := i.nsec, body := i.body, response := true)
      .WithCredit(e.credit).WithCollateral(e.collateral)
      .WithRequest(g.signatureRequest).WithResponse(g.signatureResponse)
  }

  /** Every generated item is accepted by the C reader, with the generator's deltas in the right role's fields. */
  lemma GeneratedItemParses(c: Context, parent: Digest, e: Emission, i: Input, p: Party, st: Stack)
    requires e.InRange()
    requires p == Party(c.headDigest, c.alice.key, c.bob.key) && Honest(c.env, c.alice) && Honest(c.env, c.bob)
    ensures ReadItem(c.env, p, EncodeEntry(MakeItem(c, parent, e, i).entry), if e.isBob then BOB else ALICE, st)
            == Parsed(true, ParsedForm(c, parent, e, i))
  {
    var who := if e.isBob then BOB else ALICE;
    var entry := MakeItem(c, parent, e, i).entry;
    MadeItemEncodes(c, parent, e, i);
    EntryReads(entry);
    GeneratedResponseVerifies(c, parent, e, i, p, st.sig);
    GeneratedFills(c, parent, e, i, st.tmp);
    hide EncodeEntry, DecodeEntry, FillItem, ResponseVerifies, MakeItem, ParsedForm;
  }

  lemma GeneratedResponseVerifies(c: Context, parent: Digest, e: Emission, i: Input, p: Party, sig: Digest)
    requires e.InRange()
    requires p == Party(c.headDigest, c.alice.key, c.bob.key) && Honest(c.env, c.alice) && Honest(c.env, c.bob)
    ensures ResponseVerifies(c.env, p.ResponseKey(if e.isBob then BOB else ALICE), c.headDigest,
            MakeItem(c, parent, e, i).entry, sig)
  {
    MadeItemEncodes(c, parent, e, i);
    var entry := MakeItem(c, parent, e, i).entry;
    assert Cleared(entry, RESPONSE) == Requested(c, parent, e, i);
    assert Overlay(sig, entry.signatureResponse) == entry.signatureResponse;
    hide EncodeEntry;
  }

  lemma GeneratedFills(c: Context, parent: Digest, e: Emission, i: Input, tmp: Digest)
    requires e.InRange()
    ensures FillItem(MakeItem(c, parent, e, i).entry, BLANK.(initiator := if e.isBob then BOB else ALICE), tmp)
            == Parsed(true, ParsedForm(c, parent, e, i))
  {
    hide EncodeEntry;
    var entry := MakeItem(c, parent, e, i).entry;
    IntRoundTrip(e.credit);
    IntRoundTrip(e.collateral);
    BEOfWord(i.sec);
    BEOfWord(i.nsec);
    var t := TimeBuffer(entry, tmp);
    assert t[..4] == Word(i.sec) && t[4..8] == Word(i.nsec);
  }

  // ---- a generated ledger in the C reader

  /** Stored bytes as kee_ledger_parse_item_db reads them: the last byte is the flag. */
  function AttemptAt(data: Stored, st: Stack): Attempt {
    Attempt(data[..|data| - 1], if data[|data| - 1] != 0 then BOB else ALICE, st)
  }

  function Attempts(items: seq<Generated>, stacks: seq<Stack>): (r: seq<Attempt>)
    requires |items| <= |stacks|
    ensures |r| == |items|
  {
    if items == [] then []
    else Attempts(items[..|items| - 1], stacks) + [AttemptAt(items[|items| - 1].bytes, stacks[|items| - 1])]
  }

  /** The sums over the items a reader accepted are the sums over what the generator emitted. */
  ghost predicate SameSums(items: seq<Item>, es: seq<Emission>) {
    && |items| == |es|
    && Sum(items, AliceCredit) == SumCredit(es, Alice) && Sum(items, BobCredit) == SumCredit(es, Bob)
    && Sum(items, AliceCollateral) == SumCollateral(es, Alice) && Sum(items, BobCollateral) == SumCollateral(es, Bob)
  }

  lemma SameSumsStep(items: seq<Item>, es: seq<Emission>, c: Context, parent: Digest, e: Emission, i: Input)
    requires SameSums(items, es) && e.InRange()
    ensures SameSums(items + [ParsedForm(c, parent, e, i)], es + [e])
  {
    hide MakeItem;
    SumStep(es, e);
    var it := ParsedForm(c, parent, e, i);
    assert (items + [it])[..|items|] == items;
  }

  ghost predicate Readers(c: Context, p: Party) {
    p == Party(c.headDigest, c.alice.key, c.bob.key) && Honest(c.env, c.alice) && Honest(c.env, c.bob)
  }

  /** What the C parser makes of the generated items. */
  function Forms(c: Context, es: seq<Emission>, inputs: seq<Input>): (forms: seq<Item>)
    requires |es| <= |inputs| && AllInRange(es)
    ensures |forms| == |es|
  {
    if es == [] then []
    else
      var n := |es| - 1;
      Forms(c, es[..n], inputs) + [ParsedForm(c, Tip(Items(c, es[..n], inputs)), es[n], inputs[n])]
  }

  ghost predicate AllAccepted(env: Env, p: Party, attempts: seq<Attempt>, forms: seq<Item>, es: seq<Emission>) {
    NoneFailed(env, p, attempts) && Accepted(env, p, attempts) == forms && SameSums(forms, es)
  }

  lemma AcceptOne(c: Context, attempts: seq<Attempt>, forms: seq<Item>, es: seq<Emission>, parent: Digest, e: Emission,
      i: Input, p: Party, st: Stack)
    requires AllAccepted(c.env, p, attempts, forms, es) && e.InRange() && Readers(c, p)
    ensures AllAccepted(c.env, p, attempts + [AttemptAt(MakeItem(c, parent, e, i).bytes, st)],
                        forms + [ParsedForm(c, parent, e, i)], es + [e])
  {
    hide SameSums, Honest, ReadItem, EncodeEntry, Requested, ParsedForm, Accepted, NoneFailed;
    var a := AttemptAt(MakeItem(c, parent, e, i).bytes, st);
    GeneratedItemParses(c, parent, e, i, p, st);
    SameSumsStep(forms, es, c, parent, e, i);
    AcceptedAppend(c.env, p, attempts, a);
    assert a.data == EncodeEntry(MakeItem(c, parent, e, i).entry);
  }

  lemma AcceptedAppend(env: Env, p: Party, attempts: seq<Attempt>, a: Attempt)
    ensures var r := ReadItem(env, p, a.data, a.who, a.stack);
            && (NoneFailed(env, p, attempts + [a]) <==> r.ok && NoneFailed(env, p, attempts))
            && Accepted(env, p, attempts + [a]) == Accepted(env, p, attempts) + if r.ok then [r.item] else []
  {
    hide ReadItem;
    assert (attempts + [a])[..|attempts|] == attempts;
  }

  lemma ItemsStep(c: Context, es: seq<Emission>, inputs: seq<Input>, stacks: seq<Stack>)
    requires 0 < |es| <= |inputs| && |es| <= |stacks| && AllInRange(es)
    ensures var n := |es| - 1;
            AllInRange(es[..n])
            && var before := Items(c, es[..n], inputs);
            Attempts(Items(c, es, inputs), stacks)
            == Attempts(before, stacks) + [AttemptAt(MakeItem(c, Tip(before), es[n], inputs[n]).bytes, stacks[n])]
  {
    hide *;
    var n := |es| - 1;
    PrefixInRange(es);
    ItemsGrow(c, es[..n], es[n], inputs);
    var before := Items(c, es[..n], inputs);
    AttemptsGrow(before, MakeItem(c, Tip(before), es[n], inputs[n]), stacks);
  }

  lemma AttemptsGrow(items: seq<Generated>, g: Generated, stacks: seq<Stack>)
    requires |items| < |stacks|
    ensures Attempts(items + [g], stacks) == Attempts(items, stacks) + [AttemptAt(g.bytes, stacks[|items|])]
  {
    hide AttemptAt;
    assert (items + [g])[..|items|] == items;
  }

  /** The C reader accepts every item of a generated ledger, and the deltas it sees are the generator's. */
  lemma {:induction false} GeneratedLedgerParses(c: Context, es: seq<Emission>, inputs: seq<Input>,
      stacks: seq<Stack>, p: Party)
    requires |es| <= |inputs| && |es| <= |stacks| && AllInRange(es) && Readers(c, p)
    ensures AllAccepted(c.env, p, Attempts(Items(c, es, inputs), stacks), Forms(c, es, inputs), es)
  {
    hide *;
    if es == [] {
      NothingGenerated(c, inputs, stacks, p);
    } else {
      var n := |es| - 1;
      PrefixInRange(es);
      GeneratedLedgerParses(c, es[..n], inputs, stacks, p);
      ItemsStep(c, es, inputs, stacks);
      var before := Items(c, es[..n], inputs);
      FormsStep(c, es, inputs);
      AcceptOne(c, Attempts(before, stacks), Forms(c, es[..n], inputs), es[..n], Tip(before), es[n], inputs[n], p,
                stacks[n]);
    }
  }

  lemma PrefixInRange(es: seq<Emission>)
    requires es != [] && AllInRange(es)
    ensures var n := |es| - 1; AllInRange(es[..n]) && es[n].InRange() && es == es[..n] + [es[n]]
  {
  }

  lemma NothingGenerated(c: Context, inputs: seq<Input>, stacks: seq<Stack>, p: Party)
    ensures AllAccepted(c.env, p, Attempts(Items(c, [], inputs), stacks), Forms(c, [], inputs), [])
  {
  }

  lemma FormsStep(c: Context, es: seq<Emission>, inputs: seq<Input>)
    requires 0 < |es| <= |inputs| && AllInRange(es)
    ensures var n := |es| - 1;
            && AllInRange(es[..n]) && es[n].InRange()
            && Forms(c, es, inputs)
               == Forms(c, es[..n], inputs) + [ParsedForm(c, Tip(Items(c, es[..n], inputs)), es[n], inputs[n])]
  {
    hide ParsedForm, Tip;
  }

  /** The cache counts `n` items and holds what the generator says is left, nothing wrapped. */
  predicate CacheShows(cache: Option<Cache>, n: nat, g: Gen) {
    && cache.Some? && cache.value.count == n
    && cache.value.aliceCredit == g.creditAlice && cache.value.bobCredit == g.creditBob
    && cache.value.aliceCollateral == g.collateralAlice && cache.value.bobCollateral == g.collateralBob
  }

  lemma CacheOfBalanced(cache: Option<Cache>, items: seq<Item>, g0: Gen, g: Gen, es: seq<Emission>)
    requires CacheIs(cache, items) && SameSums(items, es) && FreshGen(g0) && Balanced(g0, g, es)
    requires |es| <= 2 + g0.Total()
    ensures |items| == |es| && AllInRange(es)
    ensures |es| >= 2 ==> CacheShows(cache, |es|, g)
  {
  }

  /** End to end: for every run of the generator its ledger, loaded into an empty C ledger under the same head, has
      every item accepted and a balance cache equal to what the generator says each party has left. */
  lemma GeneratedLedgerBalances(c: Context, g0: Gen, inputs: seq<Input>, stacks: seq<Stack>, l: LedgerState)
    requires FreshGen(g0) && AllFair(Draws(inputs)) && |stacks| == |inputs|
    requires Readers(c, l.Keys()) && l.items == [] && l.cache == Some(NO_CACHE)
    ensures var run := RunGen(g0, Draws(inputs));
            && |run.emitted| <= |inputs| && AllInRange(run.emitted)
            && var attempts := Attempts(Items(c, run.emitted, inputs), stacks);
            var after := ParseAll(c.env, l, attempts);
            && after.items == Accepted(c.env, l.Keys(), attempts) == Forms(c, run.emitted, inputs)
            && (|run.emitted| >= 2 ==> CacheShows(after.cache, |run.emitted|, run.gen))
  {
    hide *;
    RunInRange(g0, Draws(inputs));
    var run := RunGen(g0, Draws(inputs));
    GeneratedLedgerParses(c, run.emitted, inputs, stacks, l.Keys());
    var attempts := Attempts(Items(c, run.emitted, inputs), stacks);
    var after, acc := ParseAll(c.env, l, attempts), Accepted(c.env, l.Keys(), attempts);
    AcceptedFacts(c.env, l, attempts, Forms(c, run.emitted, inputs), run.emitted);
    CacheOfBalanced(after.cache, acc, g0, run.gen, run.emitted);
  }

  lemma RunInRange(g0: Gen, rnds: seq<Random>)
    requires FreshGen(g0) && AllFair(rnds)
    ensures var r := RunGen(g0, rnds);
            Balanced(g0, r.gen, r.emitted) && AllInRange(r.emitted) && |r.emitted| <= 2 + g0.Total()
                && |r.emitted| <= |rnds|
  {
    hide RunGen, FreshGen, AllFair;
    GeneratorConserves(g0, rnds);
  }

  lemma AcceptedFacts(env: Env, l: LedgerState, attempts: seq<Attempt>, forms: seq<Item>, es: seq<Emission>)
    requires AllAccepted(env, l.Keys(), attempts, forms, es) && l.items == []
    ensures var after, acc := ParseAll(env, l, attempts), Accepted(env, l.Keys(), attempts);
            && after.items == acc == forms && SameSums(acc, es)
            && (l.cache == Some(NO_CACHE) ==> CacheIs(after.cache, acc))
  {
    hide ParseAll, Accepted, NoneFailed, CacheIs;
    if l.cache == Some(NO_CACHE) {
      CacheIsFold(env, l, attempts);
    }
    ListIsAccepted(env, l, attempts);
  }

  // ---- the same bytes from both programs

  /** A generated item is, flag included, what the C code stores for the item it parses to, whenever the predecessor's
      bytes are the generator's parent. */
  lemma GeneratedIsStored(c: Context, prev: Option<Item>, parent: Digest, e: Emission, i: Input)
    requires e.InRange() && Honest(c.env, c.alice) && Honest(c.env, c.bob)
    requires parent == if prev.None? then ZERO else c.env.parentRef(prev.value)
    ensures SerializeItemDb(c.env, prev, ParsedForm(c, parent, e, i)) == MakeItem(c, parent, e, i).bytes
  {
    FormTerms(c, parent, e, i);
    FormSlots(c, parent, e, i);
    KeyPartOfWords(i.sec, i.nsec);
    hide ParsedForm, EncodeEntry, IntOctets, KeyPart, Word;
    assert EntryOf(c.env, prev, ParsedForm(c, parent, e, i), FINAL) == MakeItem(c, parent, e, i).entry;
  }

  lemma FormSlots(c: Context, parent: Digest, e: Emission, i: Input)
    requires e.InRange()
    ensures var it, g := ParsedForm(c, parent, e, i), MakeItem(c, parent, e, i).entry;
            && it.initiator == (if e.isBob then BOB else ALICE) && it.response
            && it.RequestSignature() == g.signatureRequest && it.ResponseSignature() == g.signatureResponse
  {
    hide EncodeEntry;
  }

  // ---- kee_ledger_verify on a generated ledger

  function SignerOf(c: Context, e: Emission): Signer {
    if e.isBob then c.bob else c.alice
  }

  /** The request message the generator signs for an item with this parent. */
  function RequestBytes(c: Context, parent: Digest, e: Emission, i: Input): seq<byte>
    requires e.InRange()
  {
    c.headDigest + EncodeEntry(Unsigned(parent, e, i))
  }

  /** The parent field the C code writes for an item. */
  function ParentField(env: Env, prev: Option<Item>): Digest {
    if prev.None? then ZERO else env.parentRef(prev.value)
  }

  lemma FormRequest(c: Context, h: Head, prev: Option<Item>, parent: Digest, e: Emission, i: Input)
    requires e.InRange() && HeadDigest(c.env, h) == c.headDigest
    ensures Message(c.env, h, prev, ParsedForm(c, parent, e, i), REQUEST)
            == RequestBytes(c, ParentField(c.env, prev), e, i)
  {
    hide ParsedForm, EntryOf, Unsigned, HeadDigest, EncodeEntry, ParentField;
    FormEntry(c, prev, parent, e, i);
  }

  lemma FormEntry(c: Context, prev: Option<Item>, parent: Digest, e: Emission, i: Input)
    requires e.InRange()
    ensures EntryOf(c.env, prev, ParsedForm(c, parent, e, i), REQUEST) == Unsigned(ParentField(c.env, prev), e, i)
  {
    hide ParsedForm, IntOctets, KeyPart, EntryOf, ParentField, Word;
    FormTerms(c, parent, e, i);
    RequestEntry(c.env, prev, ParsedForm(c, parent, e, i));
    KeyPartOfWords(i.sec, i.nsec);
  }

  lemma RequestEntry(env: Env, prev: Option<Item>, it: Item)
    ensures EntryOf(env, prev, it, REQUEST)
            == Entry(ParentField(env, prev), KeyPart(it.sec, it.nsec), IntOctets(it.Credit()),
                     IntOctets(it.Collateral()), it.body, [], false, [])
  {
    hide IntOctets, KeyPart;
  }

  lemma FormTerms(c: Context, parent: Digest, e: Emission, i: Input)
    requires e.InRange()
    ensures var it := ParsedForm(c, parent, e, i);
            && it.Credit() == e.credit && it.Collateral() == e.collateral
            && it.sec == i.sec && it.nsec == i.nsec && it.body == i.body
  {
    hide MakeItem;
  }

  lemma FormSignatures(c: Context, parent: Digest, e: Emission, i: Input)
    requires e.InRange() && Honest(c.env, c.alice) && Honest(c.env, c.bob)
    ensures var it := ParsedForm(c, parent, e, i);
            && it.initiator == (if e.isBob then BOB else ALICE) && it.ResponseSignature() != ZERO
            && it.RequestSignature() == SignerOf(c, e).sign(c.env.hash(RequestBytes(c, parent, e, i))).value != ZERO
  {
    hide EncodeEntry;
  }

  lemma RequestBytesApart(c: Context, parent: Digest, parent': Digest, e: Emission, i: Input)
    requires e.InRange()
    ensures RequestBytes(c, parent, e, i) == RequestBytes(c, parent', e, i) <==> parent == parent'
  {
    var u, u' := Unsigned(parent, e, i), Unsigned(parent', e, i);
    EntrySize(u);
    EntrySize(u');
    hide EncodeEntry;
    if RequestBytes(c, parent, e, i) == RequestBytes(c, parent', e, i) {
      MessageInjective(c.headDigest, u, c.headDigest, u');
    }
  }

  /** One turn of the verify loop on a generated item: it passes when the C code writes the parent the generator wrote,
      and, when the initiator's signature is good for nothing else, only then or with a collision. */
  lemma FormPasses(c: Context, l: LedgerState, k: nat, parent: Digest, e: Emission, i: Input)
    requires k < |l.items| && e.InRange() && l.items[k] == ParsedForm(c, parent, e, i)
    requires Readers(c, l.Keys()) && HeadDigest(c.env, l.head) == c.headDigest
    ensures var parent' := ParentField(c.env, l.Prev(k));
            var m, m' := RequestBytes(c, parent, e, i), RequestBytes(c, parent', e, i);
            && (parent' == parent ==> Passes(c.env, l, k))
            && (SignsOnly(c.env, SignerOf(c, e), c.env.hash(m)) ==>
                  (Passes(c.env, l, k) <==> parent' == parent || Collides(c.env, m', m)))
  {
    FormSignatures(c, parent, e, i);
    FormRequest(c, l.head, l.Prev(k), parent, e, i);
    RequestBytesApart(c, ParentField(c.env, l.Prev(k)), parent, e, i);
    hide ParsedForm, RequestBytes, Message, HeadDigest, ParentField;
  }

  /** The parent the generator wrote into item `k`, and the one the C code writes for it. */
  function WrittenParent(c: Context, es: seq<Emission>, inputs: seq<Input>, k: nat): Digest
    requires k < |es| <= |inputs| && AllInRange(es)
  {
    Tip(Items(c, es[..k], inputs))
  }

  function ReadParent(c: Context, es: seq<Emission>, inputs: seq<Input>, k: nat): Digest
    requires k < |es| <= |inputs| && AllInRange(es)
  {
    ParentField(c.env, if k == 0 then None else Some(Forms(c, es, inputs)[k - 1]))
  }

  predicate ParentsAgree(c: Context, es: seq<Emission>, inputs: seq<Input>, k: nat)
    requires k < |es| <= |inputs| && AllInRange(es)
  {
    ReadParent(c, es, inputs, k) == WrittenParent(c, es, inputs, k)
  }

  /** The two request messages of item `k` collide. */
  ghost predicate RequestsCollide(c: Context, es: seq<Emission>, inputs: seq<Input>, k: nat)
    requires k < |es| <= |inputs| && AllInRange(es)
  {
    Collides(c.env, RequestBytes(c, ReadParent(c, es, inputs, k), es[k], inputs[k]),
             RequestBytes(c, WrittenParent(c, es, inputs, k), es[k], inputs[k]))
  }

  /** The initiator's signature on item `k` is good for no other message digest. */
  ghost predicate SignedOnce(c: Context, es: seq<Emission>, inputs: seq<Input>, k: nat)
    requires k < |es| <= |inputs| && AllInRange(es)
  {
    SignsOnly(c.env, SignerOf(c, es[k]), c.env.hash(RequestBytes(c, WrittenParent(c, es, inputs, k), es[k], inputs[k])))
  }

  lemma {:induction false} FormsAt(c: Context, es: seq<Emission>, inputs: seq<Input>, k: nat)
    requires k < |es| <= |inputs| && AllInRange(es)
    ensures Forms(c, es, inputs)[k] == ParsedForm(c, WrittenParent(c, es, inputs, k), es[k], inputs[k])
  {
    hide ParsedForm, Tip, Items;
    var n := |es| - 1;
    FormsStep(c, es, inputs);
    if k < n {
      FormsAt(c, es[..n], inputs, k);
      assert es[..n][..k] == es[..k];
    }
  }

  lemma GeneratedItemPasses(c: Context, es: seq<Emission>, inputs: seq<Input>, l: LedgerState, k: nat)
    requires k < |es| <= |inputs| && AllInRange(es) && l.items == Forms(c, es, inputs)
    requires Readers(c, l.Keys()) && HeadDigest(c.env, l.head) == c.headDigest
    ensures ParentsAgree(c, es, inputs, k) ==> Passes(c.env, l, k)
    ensures SignedOnce(c, es, inputs, k) ==>
              (Passes(c.env, l, k) <==> ParentsAgree(c, es, inputs, k) || RequestsCollide(c, es, inputs, k))
  {
    hide ParsedForm, RequestBytes, Passes, Forms, HeadDigest, Readers, SignsOnly, Tip, Items;
    FormsAt(c, es, inputs, k);
    FormPasses(c, l, k, WrittenParent(c, es, inputs, k), es[k], inputs[k]);
  }

  lemma {:induction false} ParseAllKeepsHead(env: Env, l: LedgerState, attempts: seq<Attempt>)
    ensures ParseAll(env, l, attempts).head == l.head && ParseAll(env, l, attempts).digest == l.digest
  {
    hide ReadItem;
    if attempts != [] {
      ParseAllKeepsHead(env, l, attempts[..|attempts| - 1]);
    }
  }

  /** A generated ledger, loaded under its head, passes kee_ledger_verify when the C code refers to every predecessor by
      the digest the generator used; and when the initiators' signatures are good for nothing else, only then or with a
      collision of two request messages. */
  lemma GeneratedLedgerVerifies(c: Context, es: seq<Emission>, inputs: seq<Input>, stacks: seq<Stack>, l: LedgerState)
    requires 0 < |es| <= |inputs| && |es| <= |stacks| && AllInRange(es)
    requires Readers(c, l.Keys()) && HeadDigest(c.env, l.head) == c.headDigest && l.items == []
    ensures var after := ParseAll(c.env, l, Attempts(Items(c, es, inputs), stacks));
            && after.items == Forms(c, es, inputs)
            && ((forall k :: 0 <= k < |es| ==> ParentsAgree(c, es, inputs, k)) ==> Verified(c.env, after))
            && ((forall k :: 0 <= k < |es| ==> SignedOnce(c, es, inputs, k)) ==>
                  (Verified(c.env, after)
                   <==> forall k :: 0 <= k < |es| ==>
                          ParentsAgree(c, es, inputs, k) || RequestsCollide(c, es, inputs, k)))
  {
    hide *;
    LoadedForms(c, es, inputs, stacks, l);
    FormsVerify(c, es, inputs, ParseAll(c.env, l, Attempts(Items(c, es, inputs), stacks)));
  }

  lemma LoadedForms(c: Context, es: seq<Emission>, inputs: seq<Input>, stacks: seq<Stack>, l: LedgerState)
    requires |es| <= |inputs| && |es| <= |stacks| && AllInRange(es) && Readers(c, l.Keys()) && l.items == []
    ensures var after := ParseAll(c.env, l, Attempts(Items(c, es, inputs), stacks));
            after.items == Forms(c, es, inputs) && Readers(c, after.Keys()) && after.head == l.head
  {
    hide Attempts, ParseAll, Forms, Items, AllAccepted, Readers;
    GeneratedLedgerParses(c, es, inputs, stacks, l.Keys());
    var attempts := Attempts(Items(c, es, inputs), stacks);
    AcceptedFacts(c.env, l, attempts, Forms(c, es, inputs), es);
    ParseAllKeepsHead(c.env, l, attempts);
  }

  lemma FormsVerify(c: Context, es: seq<Emission>, inputs: seq<Input>, l: LedgerState)
    requires 0 < |es| <= |inputs| && AllInRange(es) && l.items == Forms(c, es, inputs)
    requires Readers(c, l.Keys()) && HeadDigest(c.env, l.head) == c.headDigest
    ensures (forall k :: 0 <= k < |es| ==> ParentsAgree(c, es, inputs, k)) ==> Verified(c.env, l)
    ensures (forall k :: 0 <= k < |es| ==> SignedOnce(c, es, inputs, k)) ==>
              (Verified(c.env, l)
               <==> forall k :: 0 <= k < |es| ==> ParentsAgree(c, es, inputs, k) || RequestsCollide(c, es, inputs, k))
  {
    hide Forms, Passes, ParentsAgree, RequestsCollide, SignedOnce, HeadDigest, Readers;
    forall k | 0 <= k < |es|
      ensures ParentsAgree(c, es, inputs, k) ==> Passes(c.env, l, k)
      ensures SignedOnce(c, es, inputs, k) ==>
                (Passes(c.env, l, k) <==> ParentsAgree(c, es, inputs, k) || RequestsCollide(c, es, inputs, k))
    {
      GeneratedItemPasses(c, es, inputs, l, k);
    }
  }
}
