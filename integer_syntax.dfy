/**
  `is_integer` of the PDF processor: whether Python's `int()` accepts a
  string. `int()` ignores surrounding white space, takes an optional sign,
  then decimal digits in which single underscores may separate digits.
 */
module IntegerSyntax {
  import opened Text

  predicate IsDigit(c: char) {
    '0' <= c <= '9'
  }

  /** The states of a left-to-right scan of an integer literal. */
  datatype ScanState = Start | Signed | InDigits | AfterUnderscore | Rejected

  function Step(q: ScanState, c: char): ScanState {
    match q
    case Start =>
      if c == '+' || c == '-' then Signed
      else if IsDigit(c) then InDigits
      else Rejected
    case Signed => if IsDigit(c) then InDigits else Rejected
    case InDigits =>
      if IsDigit(c) then InDigits
      else if c == '_' then AfterUnderscore
      else Rejected
    case AfterUnderscore => if IsDigit(c) then InDigits else Rejected
    case Rejected => Rejected
  }

  function Scan(q: ScanState, s: string): ScanState
    decreases |s|
  {
    if s == [] then q else Scan(Step(q, s[0]), s[1..])
  }

  /** `is_integer(s)`: `int(s)` returns instead of raising `ValueError`. */
  predicate IsInteger(s: string) {
    Scan(Start, Strip(s)) == InDigits
  }

  /** Position `i` of `s` holds a digit, or an underscore between two digits. */
  predicate WellPlaced(s: string, i: int)
    requires 0 <= i < |s|
  {
    IsDigit(s[i]) || (s[i] == '_' && 0 < i < |s| - 1 && IsDigit(s[i - 1]) && IsDigit(s[i + 1]))
  }

  /** A run of digits in which every underscore sits between two digits. */
  predicate DigitGroups(s: string) {
    && |s| > 0
    && IsDigit(s[0])
    && IsDigit(s[|s| - 1])
    && forall i :: 0 <= i < |s| ==> WellPlaced(s, i)
  }

  /** The grammar of a decimal integer literal accepted by `int()`. */
  predicate IntegerLiteral(t: string) {
    if |t| > 0 && (t[0] == '+' || t[0] == '-') then DigitGroups(t[1..]) else DigitGroups(t)
  }

  lemma {:induction false} RejectedIsFinal(s: string)
    ensures Scan(Rejected, s) == Rejected
    decreases |s|
  {
    if s != [] {
      RejectedIsFinal(s[1..]);
    }
  }

  /** How `DigitGroups` continues after a first digit. */
  lemma DigitGroupsCons(c: char, u: string)
    requires IsDigit(c)
    ensures DigitGroups([c] + u) <==>
      || u == []
      || (IsDigit(u[0]) && DigitGroups(u))
      || (|u| >= 2 && u[0] == '_' && IsDigit(u[1]) && DigitGroups(u[1..]))
  {
    var s := [c] + u;
    assert forall i :: 0 < i < |s| ==> s[i] == u[i - 1];
    if u != [] && IsDigit(u[0]) && DigitGroups(u) {
      forall i | 0 <= i < |s| ensures WellPlaced(s, i) {
        if i > 0 {
          assert WellPlaced(u, i - 1);
        }
      }
    }
    if |u| >= 2 && u[0] == '_' && IsDigit(u[1]) && DigitGroups(u[1..]) {
      var v := u[1..];
      forall i | 0 <= i < |s| ensures WellPlaced(s, i) {
        if i > 1 {
          assert s[i] == v[i - 2];
          assert WellPlaced(v, i - 2);
        }
      }
      assert s[|s| - 1] == v[|v| - 1];
    }
    if DigitGroups(s) && u != [] {
      assert s[|s| - 1] == u[|u| - 1];
      if IsDigit(u[0]) {
        forall i | 0 <= i < |u| ensures WellPlaced(u, i) {
          assert WellPlaced(s, i + 1);
        }
      } else {
        assert WellPlaced(s, 1);
        var v := u[1..];
        forall i | 0 <= i < |v| ensures WellPlaced(v, i) {
          assert WellPlaced(s, i + 2);
        }
      }
    }
  }

  /** After at least one digit, the scan accepts exactly the valid continuations. */
  lemma {:induction false} ScanAfterDigit(c: char, u: string)
    requires IsDigit(c)
    ensures Scan(InDigits, u) == InDigits <==> DigitGroups([c] + u)
    decreases |u|
  {
    DigitGroupsCons(c, u);
    if u != [] {
      if IsDigit(u[0]) {
        ScanAfterDigit(u[0], u[1..]);
        assert [u[0]] + u[1..] == u;
        assert Scan(InDigits, u) == Scan(InDigits, u[1..]);
      } else if u[0] == '_' {
        ScanFromDigitStart(AfterUnderscore, u[1..]);
      } else {
        RejectedIsFinal(u[1..]);
      }
    }
  }

  /** From a state that needs a digit next, the scan accepts exactly digit groups. */
  lemma {:induction false} ScanFromDigitStart(q: ScanState, v: string)
    requires q == Signed || q == AfterUnderscore
    ensures Scan(q, v) == InDigits <==> DigitGroups(v)
    decreases |v|, 0
  {
    if v != [] {
      if IsDigit(v[0]) {
        ScanAfterDigit(v[0], v[1..]);
        assert [v[0]] + v[1..] == v;
      } else {
        RejectedIsFinal(v[1..]);
      }
    }
  }

  /** `IsInteger` holds exactly for the strings that, once stripped, follow
      the integer-literal grammar: sign, digits, underscores between digits. */
  lemma IsIntegerIff(s: string)
    ensures IsInteger(s) <==> IntegerLiteral(Strip(s))
  {
    var t := Strip(s);
    if t != [] {
      if t[0] == '+' || t[0] == '-' {
        ScanFromDigitStart(Signed, t[1..]);
      } else if IsDigit(t[0]) {
        ScanAfterDigit(t[0], t[1..]);
        assert [t[0]] + t[1..] == t;
      } else {
        RejectedIsFinal(t[1..]);
      }
    }
  }
}
