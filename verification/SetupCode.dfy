/** Setup codes of the form XXX-XX-XXX, and which of them are too simple to be used. */
module SetupCode {

  const LENGTH: nat := 10

  predicate IsSeparator(i: int) { i == 3 || i == 6 }

  predicate IsFigure(c: char) { '0' <= c <= '9' }

  predicate WellFormed(s: string) {
    |s| == LENGTH && forall i :: 0 <= i < LENGTH ==> if IsSeparator(i) then s[i] == '-' else IsFigure(s[i])
  }

  function Figure(c: char): int {
    c as int - '0' as int
  }

  /** The eight digits without the separators. */
  function Figures(s: string): (d: seq<int>)
    requires |s| == LENGTH
    ensures |d| == 8
  {
    [Figure(s[0]), Figure(s[1]), Figure(s[2]), Figure(s[4]), Figure(s[5]), Figure(s[7]), Figure(s[8]), Figure(s[9])]
  }

  /** Every digit differs from the one before it by `step`. */
  predicate Progression(d: seq<int>, step: int) {
    forall k :: 0 < k < |d| ==> d[k] == d[k - 1] + step
  }

  predicate IsValid(s: string) {
    && WellFormed(s)
    && !Progression(Figures(s), 0)
    && Figures(s) != [1, 2, 3, 4, 5, 6, 7, 8]
    && Figures(s) != [8, 7, 6, 5, 4, 3, 2, 1]
  }

  /** How many of the digits before position `n` continue a progression. */
  function Continued(d: seq<int>, n: nat, step: int): (c: nat)
    requires n <= |d|
    ensures c < n || c == n == 0
  {
    if n <= 1 then 0 else Continued(d, n - 1, step) + if d[n - 1] == d[n - 2] + step then 1 else 0
  }

  lemma {:induction false} ContinuedThroughout(d: seq<int>, n: nat, step: int)
    requires 0 < n <= |d|
    ensures Continued(d, n, step) == n - 1 <==> Progression(d[..n], step)
  {
    if n > 1 {
      ContinuedThroughout(d, n - 1, step);
      var front, all := d[..n - 1], d[..n];
      assert forall k :: 0 <= k < n - 1 ==> front[k] == all[k];
    }
  }

  /** Runs of one step are the two forbidden sequences exactly when they start with `1` or `8`. */
  lemma FullRuns(d: seq<int>)
    requires |d| == 8
    ensures Progression(d, 1) && d[0] == 1 <==> d == [1, 2, 3, 4, 5, 6, 7, 8]
    ensures Progression(d, -1) && d[0] == 8 <==> d == [8, 7, 6, 5, 4, 3, 2, 1]
  {
    if Progression(d, 1) || Progression(d, -1) {
      var step := d[1] - d[0];
      assert d[1] == d[0] + step && d[2] == d[1] + step && d[3] == d[2] + step && d[4] == d[3] + step;
      assert d[5] == d[4] + step && d[6] == d[5] + step && d[7] == d[6] + step;
    }
  }

  /** The position among the digits of the character at `i`. */
  function Rank(i: nat): nat
    requires i <= LENGTH
  {
    if i <= 3 then i else if i <= 6 then i - 1 else i - 2
  }

  lemma FigureAt(s: string, i: nat)
    requires |s| == LENGTH && i < LENGTH && !IsSeparator(i)
    ensures Rank(i) < 8 && Rank(i + 1) == Rank(i) + 1 && Figures(s)[Rank(i)] == Figure(s[i])
  {
  }

  method CheckSetupCode(s: string) returns (valid: bool)
    ensures valid <==> IsValid(s)
  {
    if |s| != LENGTH {
      return false;
    }
    var numEqual: int, numAscending: int, numDescending: int := 0, 0, 0;
    var previous: int := 0;
    ghost var d := Figures(s);
    for i := 0 to LENGTH
      invariant forall k :: 0 <= k < i ==> if IsSeparator(k) then s[k] == '-' else IsFigure(s[k])
      invariant previous == if i == 0 then 0 else '0' as int + d[Rank(i) - 1]
      invariant numEqual == Continued(d, Rank(i), 0)
      invariant numAscending == Continued(d, Rank(i), 1)
      invariant numDescending == Continued(d, Rank(i), -1)
    {
      if IsSeparator(i) {
        if s[i] != '-' {
          return false;
        }
      } else {
        if !IsFigure(s[i]) {
          return false;
        }
        FigureAt(s, i);
        var c := s[i] as int;
        numEqual := numEqual + if c == previous then 1 else 0;
        numAscending := numAscending + if c == previous + 1 then 1 else 0;
        numDescending := numDescending + if c == previous - 1 then 1 else 0;
        previous := c;
      }
    }
    ContinuedThroughout(d, 8, 0);
    ContinuedThroughout(d, 8, 1);
    ContinuedThroughout(d, 8, -1);
    assert d[..8] == d;
    FullRuns(d);
    valid := numEqual != 7 && (s[0] != '1' || numAscending != 7) && (s[0] != '8' || numDescending != 7);
  }

  /** The codes that section 4.2.1.2 of HAP Specification R14 names as invalid. */
  const TOO_SIMPLE: set<string> := {
    "000-00-000", "111-11-111", "222-22-222", "333-33-333", "444-44-444", "555-55-555", "666-66-666", "777-77-777",
    "888-88-888", "999-99-999", "123-45-678", "876-54-321"}

  /** The code whose digits are all the same. */
  lemma SameDigits(s: string)
    requires WellFormed(s)
    ensures Progression(Figures(s), 0) <==> s == [s[0], s[0], s[0], '-', s[0], s[0], '-', s[0], s[0], s[0]]
  {
    var d := Figures(s);
    if Progression(d, 0) {
      assert d[1] == d[0] && d[2] == d[1] && d[3] == d[2] && d[4] == d[3];
      assert d[5] == d[4] && d[6] == d[5] && d[7] == d[6];
    }
  }

  lemma RisingAndFalling(s: string)
    requires WellFormed(s)
    ensures Figures(s) == [1, 2, 3, 4, 5, 6, 7, 8] <==> s == "123-45-678"
    ensures Figures(s) == [8, 7, 6, 5, 4, 3, 2, 1] <==> s == "876-54-321"
  {
    var d := Figures(s);
    assert d == [d[0], d[1], d[2], d[3], d[4], d[5], d[6], d[7]];
    assert s == [s[0], s[1], s[2], s[3], s[4], s[5], s[6], s[7], s[8], s[9]];
  }

  lemma SameDigitIsSimple(s: string)
    requires WellFormed(s) && s == [s[0], s[0], s[0], '-', s[0], s[0], '-', s[0], s[0], s[0]]
    ensures s in TOO_SIMPLE
  {
    match s[0]
    case '0' => assert s == "000-00-000";
    case '1' => assert s == "111-11-111";
    case '2' => assert s == "222-22-222";
    case '3' => assert s == "333-33-333";
    case '4' => assert s == "444-44-444";
    case '5' => assert s == "555-55-555";
    case '6' => assert s == "666-66-666";
    case '7' => assert s == "777-77-777";
    case '8' => assert s == "888-88-888";
    case _ => assert s == "999-99-999";
  }

  /** A code is accepted exactly if it has the form of three, two and three digits and is none of the twelve. */
  lemma ValidIff(s: string)
    ensures IsValid(s) <==>
              && |s| == 10 && s[3] == '-' && s[6] == '-'
              && (forall i :: 0 <= i < 10 && i != 3 && i != 6 ==> '0' <= s[i] <= '9')
              && s !in TOO_SIMPLE
  {
    if WellFormed(s) {
      SameDigits(s);
      RisingAndFalling(s);
      if s == [s[0], s[0], s[0], '-', s[0], s[0], '-', s[0], s[0], s[0]] {
        SameDigitIsSimple(s);
      }
    }
  }
}
