/** The cursor that skips JSON values and parses sizes. A failed call leaves the
    cursor anywhere; it may then stand one place after the terminator. */
module JsonSkip {
  import opened JsonGrammar
  import Spec = JsonSpec
  import Events
  import opened Numerals

  // ---------- Sizes ----------

  function DigitValue(c: char): nat
    requires IsDigit(c)
  {
    (c - '0') as int
  }

  /** The number that the digits in [i, k) stand for. */
  function DigitsValue(text: CString, i: nat, k: nat): nat
    requires Digits(text, i, k)
    decreases k - i
  {
    if k == i then 0 else DigitsValue(text, i, k - 1) * 10 + DigitValue(text[k - 1])
  }

  lemma {:induction false} NoDigits(text: CString, i: nat)
    requires i <= |text|
    ensures Digits(text, i, i) && DigitsValue(text, i, i) == 0
  {}

  lemma {:induction false} MoreDigitsMore(text: CString, i: nat, k: nat, m: nat)
    requires i <= k <= m && Digits(text, i, m)
    ensures DigitsValue(text, i, k) <= DigitsValue(text, i, m)
    decreases m - k
  {
    if k < m {
      MoreDigitsMore(text, i, k, m - 1);
    }
  }

  lemma {:induction false} NextDigit(text: CString, i: nat, k: nat, end: nat)
    requires Digits(text, i, k) && IsDigit(At(text, k)) && Spec.SkipDigits(text, k) == end
    ensures k < |text| && Digits(text, i, k + 1) && Spec.SkipDigits(text, k + 1) == end && Digits(text, i, end)
    ensures DigitsValue(text, i, k + 1)
            == DigitsValue(text, i, k) * 10 + DigitValue(text[k]) <= DigitsValue(text, i, end)
  {
    Spec.DigitsSkipped(text, k);
    MoreDigitsMore(text, i, k + 1, end);
  }

  lemma {:induction false} DigitRoundTrip(d: nat)
    requires d < 10
    ensures IsDigit(Digit(d)) && DigitValue(Digit(d)) == d
  {
    assert "0123456789"[d] == '0' + d as char;
  }

  /** The value of a printed number is the number. */
  lemma {:induction false} PrintedNumberReadsBack(text: CString, i: nat, n: nat)
    requires Spells(text, i, Decimal(n))
    ensures var k := i + |Decimal(n)|; Digits(text, i, k) && DigitsValue(text, i, k) == n
  {
    var word := Decimal(n);
    var k := i + |word|;
    DigitRoundTrip(n % 10);
    assert text[i + (|word| - 1)] == word[|word| - 1] == Digit(n % 10);
    if n >= 10 {
      var front := Decimal(n / 10);
      assert forall m :: 0 <= m < |front| ==> front[m] == word[m];
      PrintedNumberReadsBack(text, i, n / 10);
    } else {
      assert DigitsValue(text, i, i) == 0;
    }
  }

  class JsonCursor {
    const text: CString
    const read: Spec.Reader
    var current: nat

    constructor (t: CString, r: Spec.Reader)
      ensures text == t && read == r && current == 0
    {
      text, read, current := t, r, 0;
    }

    method SkipSpace()
      requires current <= |text|
      modifies this
      ensures current == Spec.SkipSpace(text, old(current))
    {
      while IsSpace(At(text, current))
        invariant current <= |text| && Spec.SkipSpace(text, current) == Spec.SkipSpace(text, old(current))
        decreases |text| - current
      {
        current := current + 1;
      }
    }

    /** The string reader. */
    method ParseString(strings: Strings) returns (ok: bool)
      requires current <= |text|
      modifies this
      ensures ok <==> Spec.ReadFrom(text, strings, old(current)).Some?
      ensures ok ==> current == Spec.ReadFrom(text, strings, old(current)).value
    {
      var end := Spec.ReadFrom(text, strings, current);
      ok := end.Some?;
      if ok {
        current := end.value;
      }
    }

    /** parse_size: the digits are read as long as the value fits. */
    method ParseSize() returns (ok: bool, value: nat)
      requires current <= |text|
      modifies this
      ensures var end := Spec.SkipDigits(text, old(current));
              Digits(text, old(current), end)
              && (ok <==> old(current) < end && DigitsValue(text, old(current), end) <= Events.SIZE_MAX)
              && (ok ==> current == end && value == DigitsValue(text, old(current), end))
    {
      hide Digits, DigitsValue;
      ghost var start, end := current, Spec.SkipDigits(text, current);
      NoDigits(text, start);
      Spec.DigitsSkipped(text, current);
      ok, value := IsDigit(At(text, current)), 0;
      while ok && IsDigit(At(text, current))
        invariant start <= current <= |text| && Digits(text, start, current) && Spec.SkipDigits(text, current) == end
        invariant value == DigitsValue(text, start, current) <= Events.SIZE_MAX
        invariant current > start ==> start < end
        invariant !ok ==> start == end || DigitsValue(text, start, end) > Events.SIZE_MAX
        invariant ok ==> current > start || IsDigit(At(text, current))
        decreases |text| - current, ok
      {
        NextDigit(text, start, current, end);
        var digit := DigitValue(text[current]);
        if value > (Events.SIZE_MAX - digit) / 10 {
          ok := false;
        } else {
          value := value * 10 + digit;
          current := current + 1;
        }
      }
    }

    /** skip_number: the cursor moves only past a whole number. */
    method SkipNumber() returns (ok: bool)
      requires current <= |text|
      modifies this
      ensures ok <==> Spec.SkipNumber(text, old(current)).Some?
      ensures current == if ok then Spec.SkipNumber(text, old(current)).value else old(current)
    {
      var at: nat := current;
      if At(text, at) == '-' {
        at := at + 1;
      }
      ok, at := NumberInteger(at);
      if ok {
        ok, at := NumberFraction(at);
      }
      if ok {
        ok, at := NumberExponent(at);
      }
      if ok {
        current := at;
      }
    }

    method PastDigits(from: nat) returns (at: nat)
      requires from <= |text|
      ensures at == Spec.SkipDigits(text, from)
    {
      at := from;
      while IsDigit(At(text, at))
        invariant at <= |text| && Spec.SkipDigits(text, at) == Spec.SkipDigits(text, from)
        decreases |text| - at
      {
        at := at + 1;
      }
    }

    method NumberInteger(from: nat) returns (ok: bool, at: nat)
      requires from <= |text|
      ensures ok <==> Spec.SkipInteger(text, from).Some?
      ensures ok ==> at == Spec.SkipInteger(text, from).value
    {
      at := from;
      if At(text, at) == '0' {
        at := at + 1;
        ok := !IsDigit(At(text, at));
      } else if '1' <= At(text, at) <= '9' {
        at := PastDigits(at + 1);
        ok := true;
      } else {
        ok := false;
      }
    }

    method NumberFraction(from: nat) returns (ok: bool, at: nat)
      requires from <= |text|
      ensures ok <==> Spec.SkipFraction(text, from).Some?
      ensures ok ==> at == Spec.SkipFraction(text, from).value
    {
      ok, at := true, from;
      if At(text, at) == '.' {
        at := at + 1;
        ok := IsDigit(At(text, at));
        at := PastDigits(at);
      }
    }

    method NumberExponent(from: nat) returns (ok: bool, at: nat)
      requires from <= |text|
      ensures ok <==> Spec.SkipExponent(text, from).Some?
      ensures ok ==> at == Spec.SkipExponent(text, from).value
    {
      ok, at := true, from;
      if At(text, at) == 'e' || At(text, at) == 'E' {
        at := at + 1;
        if At(text, at) == '+' || At(text, at) == '-' {
          at := at + 1;
        }
        ok := IsDigit(At(text, at));
        at := PastDigits(at);
      }
    }

    /** skip_value. */
    method SkipValue(depth: nat) returns (ok: bool)
      requires current <= |text|
      modifies this
      ensures ok <==> Spec.SkipValue(text, read, old(current), depth).Some?
      ensures ok ==> current == Spec.SkipValue(text, read, old(current), depth).value
      decreases Spec.Room(depth), 0
    {
      ok := false;
      if depth < Spec.MAX_DEPTH {
        SkipSpace();
        var c := At(text, current);
        if c == '"' {
          ok := ParseString(read.texts);
        } else if c == '{' {
          ok := SkipObject(depth + 1);
        } else if c == '[' {
          ok := SkipArray(depth + 1);
        } else if IsDigit(c) || c == '-' {
          ok := SkipNumber();
        } else if Spells(text, current, "true") || Spells(text, current, "null") {
          current := current + 4;
          ok := true;
        } else if Spells(text, current, "false") {
          current := current + 5;
          ok := true;
        }
      }
    }

    /** skip_array. */
    method SkipArray(depth: nat) returns (ok: bool)
      requires current < |text|
      modifies this
      ensures var r := Spec.SkipItems(text, read, Spec.SkipSpace(text, old(current) + 1), depth, true);
              (ok <==> r.Some?) && (ok ==> current == r.value)
      decreases Spec.Room(depth), 2
    {
      current := current + 1;
      var first := true;
      SkipSpace();
      ghost var r := Spec.SkipItems(text, read, current, depth, true);
      ok := true;
      while ok && At(text, current) != ']'
        invariant ok ==> current <= |text| && Spec.SkipItems(text, read, current, depth, first) == r
        invariant !ok ==> r.None?
        decreases if ok then 1 + |text| - current else 0
      {
        ok := NextItem(depth, first);
        first := false;
      }
      if ok {
        current := current + 1;
      }
    }

    /** One round of the loop. */
    method NextItem(depth: nat, first: bool) returns (ok: bool)
      requires current <= |text| && At(text, current) != ']'
      modifies this
      ensures ok ==> old(current) < current <= |text|
                     && Spec.SkipItems(text, read, old(current), depth, first)
                        == Spec.SkipItems(text, read, current, depth, false)
      ensures !ok ==> Spec.SkipItems(text, read, old(current), depth, first).None?
      decreases Spec.Room(depth), 1
    {
      ok := true;
      if !first {
        ok := At(text, current) == ',';
        current := current + 1;
      }
      if ok {
        ok := SkipValue(depth);
        if ok {
          SkipSpace();
        }
      }
    }

    /** skip_object. */
    method SkipObject(depth: nat) returns (ok: bool)
      requires current < |text|
      modifies this
      ensures var r := Spec.SkipMembers(text, read, Spec.SkipSpace(text, old(current) + 1), depth, true);
              (ok <==> r.Some?) && (ok ==> current == r.value)
      decreases Spec.Room(depth), 2
    {
      current := current + 1;
      var first := true;
      SkipSpace();
      ghost var r := Spec.SkipMembers(text, read, current, depth, true);
      ok := true;
      while ok && At(text, current) != '}'
        invariant ok ==> current <= |text| && Spec.SkipMembers(text, read, current, depth, first) == r
        invariant !ok ==> r.None?
        decreases if ok then 1 + |text| - current else 0
      {
        ok := NextMember(depth, first);
        first := false;
      }
      if ok {
        current := current + 1;
      }
    }

    /** One round of the loop. */
    method NextMember(depth: nat, first: bool) returns (ok: bool)
      requires current <= |text| && At(text, current) != '}'
      modifies this
      ensures ok ==> old(current) < current <= |text|
                     && Spec.SkipMembers(text, read, old(current), depth, first)
                        == Spec.SkipMembers(text, read, current, depth, false)
      ensures !ok ==> Spec.SkipMembers(text, read, old(current), depth, first).None?
      decreases Spec.Room(depth), 1
    {
      ok := true;
      if !first {
        ok := At(text, current) == ',';
        current := current + 1;
      }
      if ok {
        ok := SkipNameAndColon();
        if ok {
          ok := SkipValue(depth);
          if ok {
            SkipSpace();
          }
        }
      }
    }

    /** The key of a member and the colon. */
    method SkipNameAndColon() returns (ok: bool)
      requires current <= |text|
      modifies this
      ensures ok <==> Spec.SkipName(text, read, old(current)).Some?
      ensures ok ==> current == Spec.SkipName(text, read, old(current)).value
    {
      SkipSpace();
      ok := ParseString(read.names);
      if ok {
        SkipSpace();
        ok := At(text, current) == ':';
        current := current + 1;
      }
    }
  }
}
