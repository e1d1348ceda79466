/**
 * The password requirement checklist shown while registering
 * (PasswordStrengthIndicator.tsx): four requirements checked by regular
 * expressions, the list of those met, a progress percentage and a colour.
 */
module PasswordStrength {

  /** What a requirement's regular expression tests. */
  datatype Rule =
    | MinLength   // /.{8,}/
    | Uppercase   // /[A-Z]/
    | Digit       // /[0-9]/
    | Special     // /[!@#$%^&*(),.?":{}|<>]/

  datatype Requirement = Requirement(id: nat, caption: string, rule: Rule)

  const Requirements: seq<Requirement> := [
    Requirement(1, "At least 8 characters", MinLength),
    Requirement(2, "At least 1 uppercase letter", Uppercase),
    Requirement(3, "At least 1 number", Digit),
    Requirement(4, "At least 1 special character", Special)
  ]

  /** The twenty characters of the special-character class. */
  const Specials: string := "!@#$%^&*(),.?\":{}|<>"

  const Green: string := "#4caf50"
  const Orange: string := "#ff9800"
  const Red: string := "#f44336"

  // ------------------------------------------------------------------ the length rule

  /** The characters `.` does not match. */
  predicate IsLineTerminator(c: char) {
    c == '\n' || c == '\r' || c == '\U{2028}' || c == '\U{2029}'
  }

  /** Eight characters from position i on, none a line terminator: a match of `.{8}`. */
  predicate Window(s: string, i: int) {
    0 <= i && i + 8 <= |s| && forall k :: i <= k < i + 8 ==> !IsLineTerminator(s[k])
  }

  /**
   * A left-to-right scan: `run` counts the non-terminators just before
   * position i; the scan succeeds once it reaches eight.
   */
  function LongRunFrom(s: string, i: nat, run: nat): bool
    requires i <= |s|
    decreases |s| - i
  {
    if run >= 8 then true
    else if i == |s| then false
    else LongRunFrom(s, i + 1, if IsLineTerminator(s[i]) then 0 else run + 1)
  }

  function LongRun(s: string): bool {
    LongRunFrom(s, 0, 0)
  }

  /**
   * The scan's invariant: the last `run` characters before i are
   * non-terminators, the run is maximal, and no eight-character window
   * ends at or before i unless the run already reached eight.
   */
  ghost predicate ScanState(s: string, i: nat, run: nat) {
    i <= |s| && run <= 8 && run <= i
    && (forall k :: i - run <= k < i ==> !IsLineTerminator(s[k]))
    && (run < 8 ==> i == run || IsLineTerminator(s[i - run - 1]))
    && (run < 8 ==> forall j :: 0 <= j && j + 8 <= i ==> !Window(s, j))
  }

  lemma {:induction false} LongRunFromMeaning(s: string, i: nat, run: nat)
    requires ScanState(s, i, run)
    decreases |s| - i
    ensures LongRunFrom(s, i, run) <==> exists j :: Window(s, j)
  {
    if run >= 8 {
      assert Window(s, i - 8);
    } else if i == |s| {
    } else {
      var run' := if IsLineTerminator(s[i]) then 0 else run + 1;
      forall j | 0 <= j && j + 8 <= i + 1 && run' < 8
        ensures !Window(s, j)
      {
        if j + 8 == i + 1 {
          if IsLineTerminator(s[i]) {
            assert !(!IsLineTerminator(s[i]));
          } else if i != run {
            assert IsLineTerminator(s[i - run - 1]);
          }
        }
      }
      LongRunFromMeaning(s, i + 1, run');
    }
  }

  /** `/.{8,}/.test(s)` holds iff eight consecutive characters of s are not line terminators. */
  lemma LongRunMeaning(s: string)
    ensures LongRun(s) <==> exists j :: Window(s, j)
  {
    LongRunFromMeaning(s, 0, 0);
  }

  // ------------------------------------------------------------------ the four tests

  function Holds(rule: Rule, s: string): bool {
    match rule
    case MinLength => LongRun(s)
    case Uppercase => exists k :: 0 <= k < |s| && 'A' <= s[k] <= 'Z'
    case Digit => exists k :: 0 <= k < |s| && '0' <= s[k] <= '9'
    case Special => exists k :: 0 <= k < |s| && s[k] in Specials
  }

  /** Requirement `id` is satisfied by s. */
  predicate Satisfied(id: nat, s: string) {
    1 <= id <= 4 && Holds(Requirements[id - 1].rule, s)
  }

  /**
   * `requirements.filter(req => req.regex.test(password)).map(req => req.id)`
   * over the table from entry `lo` on: exactly the satisfied ids above `lo`,
   * ascending.
   */
  function MetFrom(lo: nat, s: string): (r: seq<nat>)
    requires lo <= |Requirements|
    decreases |Requirements| - lo
    ensures |r| <= |Requirements| - lo
    ensures forall id :: id in r <==> lo < id && Satisfied(id, s)
    ensures forall k :: 0 <= k < |r| ==> lo < r[k] <= 4
    ensures forall i, j :: 0 <= i < j < |r| ==> r[i] < r[j]
  {
    if lo == |Requirements| then []
    else
      var q := Requirements[lo];
      assert q.id == lo + 1;
      var rest := MetFrom(lo + 1, s);
      if Holds(q.rule, s) then [q.id] + rest else rest
  }

  /**
   * The met list: exactly the satisfied ids, in ascending order (so without
   * duplicates), all among 1..4.
   */
  function Met(s: string): (r: seq<nat>)
    ensures |r| <= 4
    ensures forall id :: id in r <==> Satisfied(id, s)
    ensures forall k :: 0 <= k < |r| ==> 1 <= r[k] <= 4
    ensures forall i, j :: 0 <= i < j < |r| ==> r[i] < r[j]
  {
    MetFrom(0, s)
  }

  // ------------------------------------------------------------------ progress and colour

  /** `(metRequirements.length / requirements.length) * 100`. */
  function Progress(met: seq<nat>): (p: real)
    requires |met| <= 4
    ensures p == 25.0 * |met| as real
    ensures p in {0.0, 25.0, 50.0, 75.0, 100.0}
  {
    (|met| as real / |Requirements| as real) * 100.0
  }

  /** `getColor()`: green exactly at 100, orange from 50 up to but not at 100, red below 50. */
  function StrengthColour(progress: real): (c: string)
    ensures c == Green <==> progress == 100.0
    ensures c == Orange <==> 50.0 <= progress && progress != 100.0
    ensures c == Red <==> progress < 50.0
  {
    if progress == 100.0 then Green
    else if progress >= 50.0 then Orange
    else Red
  }

  /** Green iff all four are met, orange iff two or three, red iff at most one. */
  lemma ColourBands(s: string)
    ensures StrengthColour(Progress(Met(s))) == Green <==> |Met(s)| == 4
    ensures StrengthColour(Progress(Met(s))) == Orange <==> 2 <= |Met(s)| <= 3
    ensures StrengthColour(Progress(Met(s))) == Red <==> |Met(s)| <= 1
  {
    var n := |Met(s)|;
    assert Progress(Met(s)) == 25.0 * n as real;
    assert Green != Orange && Orange != Red && Green != Red;
  }

  // ------------------------------------------------------------------ typing more

  /** Appending characters never un-meets a requirement. */
  lemma MetMonotone(s: string, t: string)
    ensures forall id :: id in Met(s) ==> id in Met(s + t)
  {
    LongRunMeaning(s);
    LongRunMeaning(s + t);
    forall id | Satisfied(id, s) ensures Satisfied(id, s + t) {
      var rule := Requirements[id - 1].rule;
      match rule
      case MinLength =>
        var j :| Window(s, j);
        assert Window(s + t, j);
      case Uppercase =>
        var k :| 0 <= k < |s| && 'A' <= s[k] <= 'Z';
        assert (s + t)[k] == s[k];
      case Digit =>
        var k :| 0 <= k < |s| && '0' <= s[k] <= '9';
        assert (s + t)[k] == s[k];
      case Special =>
        var k :| 0 <= k < |s| && s[k] in Specials;
        assert (s + t)[k] == s[k];
    }
  }

  /** The empty password meets nothing: no progress, red. */
  lemma EmptyPassword()
    ensures Met("") == []
    ensures Progress(Met("")) == 0.0
    ensures StrengthColour(Progress(Met(""))) == Red
  {
    LongRunMeaning("");
  }

  /** A concrete strong password meets all four and shows green. */
  lemma StrongExample()
    ensures Met("Abcdef1!") == [1, 2, 3, 4]
    ensures StrengthColour(Progress(Met("Abcdef1!"))) == Green
  {
    var s := "Abcdef1!";
    LongRunMeaning(s);
    assert Window(s, 0);
    assert 'A' <= s[0] <= 'Z';
    assert '0' <= s[6] <= '9';
    assert s[7] in Specials;
    assert Holds(MinLength, s) && Holds(Uppercase, s) && Holds(Digit, s) && Holds(Special, s);
    assert MetFrom(3, s) == [4];
    assert MetFrom(1, s) == [2, 3, 4];
  }
}
