/**
 * The three per-scheme usage counters: a `Tally` value, the `Counters` object
 * every `Encryptor` shares (the class-wide static fields of lines 17-27), and
 * the report `encryptionTallyString` renders from them (lines 327-332).
 * The report is written with Dafny `string` literals rather than as `Text`:
 * it is pure ASCII, where the two coincide code unit for code unit, and no
 * codec reads it.
 */
module Tallies {
  import opened Outcomes
  import opened Schemes

  /** A snapshot of the three counters. */
  datatype Tally = Tally(baseN: nat, caesar: nat, rotate: nat) {
    /** The counter of scheme s. */
    function Count(s: Scheme): nat {
      match s
      case BaseN => baseN
      case Caesar => caesar
      case Rotate => rotate
    }

    /** One more completed call of scheme s: its counter goes up by one, the others stay. */
    function Bump(s: Scheme): (t: Tally)
      ensures t.Count(s) == Count(s) + 1
      ensures forall o: Scheme :: o != s ==> t.Count(o) == Count(o)
    {
      match s
      case BaseN => this.(baseN := baseN + 1)
      case Caesar => this.(caesar := caesar + 1)
      case Rotate => this.(rotate := rotate + 1)
    }
  }

  /** The counters at process start. */
  const Initial := Tally(0, 0, 0)

  /**
   * The static counters, held in one object that every `Encryptor` references.
   * They are only ever incremented.
   */
  class Counters {
    var baseN: nat
    var caesar: nat
    var rotate: nat

    function Snapshot(): Tally
      reads this
    {
      Tally(baseN, caesar, rotate)
    }

    /** All three counters start at zero (lines 17, 22, 27). */
    constructor ()
      ensures Snapshot() == Initial
    {
      baseN, caesar, rotate := 0, 0, 0;
    }

    /** The `countX++` at the end of a completed call of scheme s. */
    method Bump(s: Scheme)
      modifies this
      ensures Snapshot() == old(Snapshot()).Bump(s)
    {
      match s
      case BaseN => baseN := baseN + 1;
      case Caesar => caesar := caesar + 1;
      case Rotate => rotate := rotate + 1;
    }

    /** `encryptionTallyString()`: the report of the current counts; it changes nothing. */
    function TallyString(): (r: string)
      reads this
      ensures ReadReport(r) == Some(Snapshot())
    {
      ReportReadsBack(Snapshot());
      Report(Snapshot())
    }
  }

  // ---------------------------------------------------------------------
  // Decimal rendering of a count (Java's int-to-String conversion)
  // ---------------------------------------------------------------------

  predicate IsDecimal(s: string) {
    forall i :: 0 <= i < |s| ==> '0' <= s[i] <= '9'
  }

  function DigitOf(d: nat): (c: char)
    requires d < 10
    ensures '0' <= c <= '9' && c as int - '0' as int == d
  {
    ('0' as int + d) as char
  }

  /** A count written in decimal, with no leading zeros. */
  function Decimal(n: nat): (s: string)
    ensures |s| >= 1 && IsDecimal(s)
    ensures s[0] == '0' ==> n == 0 && s == "0"
    decreases n
  {
    if n < 10 then [DigitOf(n)] else Decimal(n / 10) + [DigitOf(n % 10)]
  }

  /** The value of a string of decimal digits. */
  function DecimalValue(s: string): nat
    requires IsDecimal(s)
    decreases |s|
  {
    if s == [] then 0 else 10 * DecimalValue(s[..|s| - 1]) + (s[|s| - 1] as int - '0' as int)
  }

  /** Reading a rendered count gives the count back. */
  lemma {:induction false} DecimalRoundTrip(n: nat)
    ensures DecimalValue(Decimal(n)) == n
    decreases n
  {
    if n >= 10 {
      var s := Decimal(n);
      assert s[..|s| - 1] == Decimal(n / 10);
      DecimalRoundTrip(n / 10);
    }
  }

  // ---------------------------------------------------------------------
  // The report and reading it back
  // ---------------------------------------------------------------------

  const BaseNLabel := "Base-n count: "
  const CaesarLabel := "Caesar count: "
  const RotateLabel := "Block rotation count: "

  /** The three lines of the report, in the order Base-N, Caesar, block rotation. */
  function ReportLines(t: Tally): seq<string> {
    [BaseNLabel + Decimal(t.baseN), CaesarLabel + Decimal(t.caesar), RotateLabel + Decimal(t.rotate)]
  }

  /** What `encryptionTallyString` returns for the counts t (lines 328-331). */
  function Report(t: Tally): string {
    BaseNLabel + Decimal(t.baseN) + "\n" + CaesarLabel + Decimal(t.caesar) + "\n" + RotateLabel + Decimal(t.rotate)
  }

  /** A string cut at every newline. */
  function Lines(s: string): (ls: seq<string>)
    ensures |ls| >= 1
    decreases |s|
  {
    if s == [] then [[]]
    else
      var rest := Lines(s[1..]);
      if s[0] == '\n' then [[]] + rest else [[s[0]] + rest[0]] + rest[1..]
  }

  lemma {:induction false} LinesOfLine(a: string)
    requires '\n' !in a
    ensures Lines(a) == [a]
    decreases |a|
  {
    if a != [] {
      LinesOfLine(a[1..]);
      assert a == [a[0]] + a[1..];
    }
  }

  lemma {:induction false} LinesOfJoin(a: string, b: string)
    requires '\n' !in a
    ensures Lines(a + "\n" + b) == [a] + Lines(b)
    decreases |a|
  {
    var s := a + "\n" + b;
    if a == [] {
      assert s[1..] == b;
    } else {
      assert s[1..] == a[1..] + "\n" + b;
      LinesOfJoin(a[1..], b);
      assert [a[0]] + a[1..] == a;
    }
  }

  /**
   * The count on a report line that starts with the given heading, if the rest
   * is a number written as `Decimal` writes it: no leading zero unless it is "0".
   */
  function ReadCount(line: string, heading: string): Option<nat> {
    if heading <= line && |line| > |heading| && IsDecimal(line[|heading|..])
       && (line[|heading|] != '0' || |line| == |heading| + 1) then
      Some(DecimalValue(line[|heading|..]))
    else None
  }

  /** A count with a leading zero is not read: only the form `Decimal` writes is. */
  lemma LeadingZeroRejected()
    ensures ReadCount(BaseNLabel + "01", BaseNLabel) == None
    ensures ReadCount(BaseNLabel + "0", BaseNLabel) == Some(0)
  {
    assert (BaseNLabel + "0")[|BaseNLabel|..] == "0";
    assert "0"[..0] == [];
  }

  /** The counts a report shows: three lines carrying the three headings in order. */
  function ReadReport(r: string): Option<Tally> {
    var ls := Lines(r);
    if |ls| != 3 then None
    else
      match (ReadCount(ls[0], BaseNLabel), ReadCount(ls[1], CaesarLabel), ReadCount(ls[2], RotateLabel))
      case (Some(b), Some(c), Some(k)) => Some(Tally(b, c, k))
      case _ => None
  }

  /** The report is three lines, one per scheme in the order Base-N, Caesar, block rotation. */
  lemma ReportHasThreeLines(t: Tally)
    ensures Lines(Report(t)) == ReportLines(t)
  {
    var l0, l1, l2 := ReportLines(t)[0], ReportLines(t)[1], ReportLines(t)[2];
    assert Report(t) == l0 + "\n" + (l1 + "\n" + l2);
    LinesOfLine(l2);
    LinesOfJoin(l1, l2);
    LinesOfJoin(l0, l1 + "\n" + l2);
  }

  lemma ReadLabelledCount(heading: string, n: nat)
    ensures ReadCount(heading + Decimal(n), heading) == Some(n)
  {
    var line := heading + Decimal(n);
    assert line[|heading|..] == Decimal(n);
    DecimalRoundTrip(n);
  }

  /** The report shows exactly the counts it was made from: reading it back gives them. */
  lemma ReportReadsBack(t: Tally)
    ensures ReadReport(Report(t)) == Some(t)
  {
    ReportHasThreeLines(t);
    ReadLabelledCount(BaseNLabel, t.baseN);
    ReadLabelledCount(CaesarLabel, t.caesar);
    ReadLabelledCount(RotateLabel, t.rotate);
  }
}
