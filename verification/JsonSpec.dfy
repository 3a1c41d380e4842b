/** The skipper as functions of the cursor position, and their agreement with
    the grammar. */
module JsonSpec {
  import opened JsonGrammar
  import opened Wrappers

  const MAX_DEPTH := 64

  /** The string reader, which is not part of this model, by its results: the
      strings it drops, and those it can copy into a key buffer. */
  datatype Reader = Reader(texts: Strings, names: Strings)

  /** A string begins with a quote and ends within the text; a copied string
      is one that could be dropped. */
  predicate ReadsAt(text: CString, read: Reader, i: nat) {
    && (i in read.texts ==> i < read.texts[i] <= |text| && text[i] == '"')
    && (i in read.names ==> i in read.texts && read.names[i] == read.texts[i])
  }

  ghost predicate ReadsStrings(text: CString, read: Reader) {
    forall i: nat :: ReadsAt(text, read, i)
  }

  function ReadFrom(text: CString, strings: Strings, i: nat): (r: Option<nat>)
    ensures r.Some? ==> i < r.value <= |text|
  {
    if i in strings && i < strings[i] <= |text| then Some(strings[i]) else None
  }

  // ---------- The functions ----------

  function SkipSpace(text: CString, i: nat): (k: nat)
    requires i <= |text|
    ensures i <= k <= |text| && !IsSpace(At(text, k))
    decreases |text| - i
  {
    if IsSpace(At(text, i)) then SkipSpace(text, i + 1) else i
  }

  function SkipDigits(text: CString, i: nat): (k: nat)
    requires i <= |text|
    ensures i <= k <= |text| && !IsDigit(At(text, k))
    decreases |text| - i
  {
    if IsDigit(At(text, i)) then SkipDigits(text, i + 1) else i
  }

  function SkipInteger(text: CString, a: nat): (r: Option<nat>)
    requires a <= |text|
    ensures r.Some? ==> a < r.value <= |text|
  {
    if At(text, a) == '0' then (if IsDigit(At(text, a + 1)) then None else Some(a + 1))
    else if '1' <= At(text, a) <= '9' then Some(SkipDigits(text, a + 1))
    else None
  }

  function SkipFraction(text: CString, b: nat): (r: Option<nat>)
    requires b <= |text|
    ensures r.Some? ==> b <= r.value <= |text|
  {
    if At(text, b) != '.' then Some(b)
    else if IsDigit(At(text, b + 1)) then Some(SkipDigits(text, b + 1))
    else None
  }

  function SkipExponent(text: CString, c: nat): (r: Option<nat>)
    requires c <= |text|
    ensures r.Some? ==> c <= r.value <= |text|
  {
    if At(text, c) != 'e' && At(text, c) != 'E' then Some(c)
    else
      var e := if At(text, c + 1) == '+' || At(text, c + 1) == '-' then c + 2 else c + 1;
      if IsDigit(At(text, e)) then Some(SkipDigits(text, e)) else None
  }

  function SkipNumber(text: CString, i: nat): (r: Option<nat>)
    requires i <= |text|
    ensures r.Some? ==> i < r.value <= |text|
  {
    var b := SkipInteger(text, if At(text, i) == '-' then i + 1 else i);
    if b.None? then None
    else
      var c := SkipFraction(text, b.value);
      if c.None? then None else SkipExponent(text, c.value)
  }

  function SkipLiteral(text: CString, i: nat): (r: Option<nat>)
    ensures r.Some? ==> i < r.value <= |text|
  {
    if Spells(text, i, "true") || Spells(text, i, "null") then Some(i + 4)
    else if Spells(text, i, "false") then Some(i + 5)
    else None
  }

  /** A value that is not a container. */
  function SkipScalar(text: CString, read: Reader, s: nat): (r: Option<nat>)
    requires s <= |text|
    ensures r.Some? ==> s < r.value <= |text|
  {
    var c := At(text, s);
    if c == '"' then ReadFrom(text, read.texts, s)
    else if IsDigit(c) || c == '-' then SkipNumber(text, s)
    else SkipLiteral(text, s)
  }

  function Room(depth: nat): nat {
    if depth < MAX_DEPTH then MAX_DEPTH - depth else 0
  }

  function SkipValue(text: CString, read: Reader, i: nat, depth: nat): (r: Option<nat>)
    requires i <= |text|
    ensures r.Some? ==> i < r.value <= |text|
    decreases Room(depth), 0, |text| - i
  {
    if depth >= MAX_DEPTH then None
    else
      var s := SkipSpace(text, i);
      var c := At(text, s);
      if c == '{' then SkipMembers(text, read, SkipSpace(text, s + 1), depth + 1, true)
      else if c == '[' then SkipItems(text, read, SkipSpace(text, s + 1), depth + 1, true)
      else SkipScalar(text, read, s)
  }

  /** The rest of an array: p is at an item, a separator or the bracket. */
  function SkipItems(text: CString, read: Reader, p: nat, depth: nat, first: bool): (r: Option<nat>)
    requires p <= |text|
    ensures r.Some? ==> p < r.value <= |text|
    decreases Room(depth), 1, |text| - p
  {
    if At(text, p) == ']' then Some(p + 1)
    else if !first && At(text, p) != ',' then None
    else
      var value := SkipValue(text, read, if first then p else p + 1, depth);
      if value.None? then None else SkipItems(text, read, SkipSpace(text, value.value), depth, false)
  }

  /** A member's name and colon. */
  function SkipName(text: CString, read: Reader, p: nat): (r: Option<nat>)
    requires p <= |text|
    ensures r.Some? ==> p < r.value <= |text|
  {
    var name := ReadFrom(text, read.names, SkipSpace(text, p));
    if name.None? then None
    else
      var colon := SkipSpace(text, name.value);
      if At(text, colon) == ':' then Some(colon + 1) else None
  }

  /** The rest of an object. */
  function SkipMembers(text: CString, read: Reader, p: nat, depth: nat, first: bool): (r: Option<nat>)
    requires p <= |text|
    ensures r.Some? ==> p < r.value <= |text|
    decreases Room(depth), 1, |text| - p
  {
    if At(text, p) == '}' then Some(p + 1)
    else if !first && At(text, p) != ',' then None
    else
      var start := SkipName(text, read, if first then p else p + 1);
      if start.None? then None
      else
        var value := SkipValue(text, read, start.value, depth);
        if value.None? then None else SkipMembers(text, read, SkipSpace(text, value.value), depth, false)
  }

  // ---------- Numbers are exactly the grammar's ----------

  lemma {:induction false} SpaceSkipped(text: CString, i: nat)
    requires i <= |text|
    ensures Space(text, i, SkipSpace(text, i))
    decreases |text| - i
  {
    if IsSpace(At(text, i)) {
      SpaceSkipped(text, i + 1);
    }
  }

  lemma {:induction false} DigitsSkipped(text: CString, i: nat)
    requires i <= |text|
    ensures Digits(text, i, SkipDigits(text, i))
    decreases |text| - i
  {
    if IsDigit(At(text, i)) {
      DigitsSkipped(text, i + 1);
    }
  }

  lemma {:induction false} SpaceUnique(text: CString, i: nat, k: nat)
    requires Space(text, i, k) && !IsSpace(At(text, k))
    ensures SkipSpace(text, i) == k
    decreases k - i
  {
    if i < k {
      SpaceUnique(text, i + 1, k);
    }
  }

  lemma {:induction false} DigitsUnique(text: CString, i: nat, k: nat)
    requires Digits(text, i, k) && !IsDigit(At(text, k))
    ensures SkipDigits(text, i) == k
    decreases k - i
  {
    if i < k {
      DigitsUnique(text, i + 1, k);
    }
  }

  lemma {:induction false} IntegerSound(text: CString, a: nat)
    requires a <= |text| && SkipInteger(text, a).Some?
    ensures var b := SkipInteger(text, a).value;
            a < b <= |text| && (if text[a] == '0' then b == a + 1 else '1' <= text[a] <= '9' && Digits(text, a + 1, b))
  {
    DigitsSkipped(text, a + 1);
  }

  lemma {:induction false} FractionSound(text: CString, b: nat)
    requires b <= |text| && SkipFraction(text, b).Some?
    ensures var c := SkipFraction(text, b).value;
            b <= c <= |text| && (c == b || (text[b] == '.' && b + 1 < c && Digits(text, b + 1, c)))
  {
    if b < SkipFraction(text, b).value {
      DigitsSkipped(text, b + 1);
    }
  }

  lemma {:induction false} ExponentSound(text: CString, c: nat) returns (e: nat)
    requires c <= |text| && SkipExponent(text, c).Some?
    ensures var j := SkipExponent(text, c).value;
            c <= j <= |text|
            && (j == c
                || ((text[c] == 'e' || text[c] == 'E') && c < e < j && Digits(text, e, j)
                    && (e == c + 1 || (e == c + 2 && (text[c + 1] == '+' || text[c + 1] == '-')))))
  {
    e := if c < |text| && (At(text, c + 1) == '+' || At(text, c + 1) == '-') then c + 2 else c + 1;
    if c < SkipExponent(text, c).value {
      DigitsSkipped(text, e);
    }
  }

  lemma {:induction false} NumberSound(text: CString, i: nat) returns (a: nat, b: nat, c: nat, e: nat)
    requires i <= |text| && SkipNumber(text, i).Some?
    ensures IsNumber(text, i, SkipNumber(text, i).value, a, b, c, e)
  {
    hide SkipInteger, SkipFraction, SkipExponent, Digits;
    a := if At(text, i) == '-' then i + 1 else i;
    b := SkipInteger(text, a).value;
    c := SkipFraction(text, b).value;
    IntegerSound(text, a);
    FractionSound(text, b);
    e := ExponentSound(text, c);
  }

  lemma {:induction false} IntegerComplete(text: CString, a: nat, b: nat)
    requires a < b <= |text| && !IsDigit(At(text, b))
    requires if text[a] == '0' then b == a + 1 else '1' <= text[a] <= '9' && Digits(text, a + 1, b)
    ensures SkipInteger(text, a) == Some(b)
  {
    if text[a] != '0' {
      DigitsUnique(text, a + 1, b);
    }
  }

  lemma {:induction false} FractionComplete(text: CString, b: nat, c: nat)
    requires b <= c <= |text| && !IsDigit(At(text, c)) && At(text, c) != '.'
    requires c == b || (text[b] == '.' && b + 1 < c && Digits(text, b + 1, c))
    ensures SkipFraction(text, b) == Some(c)
  {
    if b < c {
      DigitsUnique(text, b + 1, c);
    }
  }

  lemma {:induction false} ExponentComplete(text: CString, c: nat, e: nat, j: nat)
    requires c < e < j <= |text| && !IsDigit(At(text, j))
    requires (text[c] == 'e' || text[c] == 'E') && Digits(text, e, j)
    requires e == c + 1 || (e == c + 2 && (text[c + 1] == '+' || text[c + 1] == '-'))
    ensures SkipExponent(text, c) == Some(j)
  {
    DigitsUnique(text, e, j);
  }

  lemma {:induction false} NumberComplete(text: CString, i: nat, j: nat, a: nat, b: nat, c: nat, e: nat)
    requires IsNumber(text, i, j, a, b, c, e) && IsDelimiter(At(text, j))
    ensures SkipNumber(text, i) == Some(j)
  {
    IntegerComplete(text, a, b);
    FractionComplete(text, b, c);
    if c < j {
      ExponentComplete(text, c, e, j);
    }
  }

  // ---------- Values ----------

  /** A value from i on, after white space, that ends at j. */
  ghost predicate ValueAt(text: CString, read: Reader, i: nat, j: nat, depth: nat, s: nat, t: Tree) {
    Space(text, i, s) && IsValue(text, read.texts, s, j, t) && NamesIn(read.names.Keys, t)
      && depth + Nesting(t) < MAX_DEPTH
  }

  /** An array's items from the loop's position q on; p is where the white
      space before q begins. */
  ghost predicate ItemsFrom(text: CString, read: Reader, p: nat, q: nat, j: nat, first: bool, items: Items) {
    if items.EndOfArray? then items.close == q && Closes(text, q, ']', j)
    else if first then IsItems(text, read.texts, p, j, items)
    else q < |text| && text[q] == ',' && IsItems(text, read.texts, q + 1, j, items)
  }

  ghost predicate MembersFrom(text: CString, read: Reader, p: nat, q: nat, j: nat, first: bool, ms: Members) {
    if ms.EndOfObject? then ms.close == q && Closes(text, q, '}', j)
    else if first then IsMembers(text, read.texts, p, j, ms)
    else q < |text| && text[q] == ',' && IsMembers(text, read.texts, q + 1, j, ms)
  }

  lemma {:induction false} ArrayFromItems(text: CString, read: Reader, s: nat, q: nat, j: nat, items: Items)
    requires s < |text| && text[s] == '[' && Space(text, s + 1, q) && q < j <= |text|
             && ItemsFrom(text, read, s + 1, q, j, true, items)
    ensures IsValue(text, read.texts, s, j, Array(items))
  {}

  lemma {:induction false} ObjectFromMembers(text: CString, read: Reader, s: nat, q: nat, j: nat, ms: Members)
    requires s < |text| && text[s] == '{' && Space(text, s + 1, q) && q < j <= |text|
             && MembersFrom(text, read, s + 1, q, j, true, ms)
    ensures IsValue(text, read.texts, s, j, Object(ms))
  {}

  predicate IsScalar(t: Tree) {
    t.Literal? || t.Text? || t.Number?
  }

  lemma {:induction false} ScalarSound(text: CString, read: Reader, s: nat) returns (t: Tree)
    requires s <= |text| && ReadsStrings(text, read) && SkipScalar(text, read, s).Some?
    ensures IsScalar(t) && IsValue(text, read.texts, s, SkipScalar(text, read, s).value, t)
  {
    var c := At(text, s);
    if c == '"' {
      t := Text;
    } else if IsDigit(c) || c == '-' {
      var a, b, d, e := NumberSound(text, s);
      t := Number(a, b, d, e);
    } else {
      t := Literal;
    }
  }

  lemma {:induction false} ScalarComplete(text: CString, read: Reader, s: nat, j: nat, t: Tree)
    requires ReadsStrings(text, read) && IsScalar(t) && IsValue(text, read.texts, s, j, t) && IsDelimiter(At(text, j))
    ensures SkipScalar(text, read, s) == Some(j) && At(text, s) != '{' && At(text, s) != '['
  {
    assert ReadsAt(text, read, s);
    match t
    case Literal =>
      LiteralComplete(text, read, s, j);
    case Text =>
    case Number(a, b, c, e) => NumberComplete(text, s, j, a, b, c, e);
  }

  lemma {:induction false} ObjectSound(text: CString, read: Reader, s: nat, depth: nat) returns (ms: Members)
    requires s < |text| && text[s] == '{' && depth < MAX_DEPTH && ReadsStrings(text, read)
    requires SkipMembers(text, read, SkipSpace(text, s + 1), depth + 1, true).Some?
    ensures IsValue(text, read.texts, s, SkipMembers(text, read, SkipSpace(text, s + 1), depth + 1, true).value,
                    Object(ms))
    ensures MemberNamesIn(read.names.Keys, ms) && depth + MemberNesting(ms) < MAX_DEPTH
    decreases Room(depth), 0, 0
  {
    hide ReadsStrings, Space;
    var q := SkipSpace(text, s + 1);
    SpaceSkipped(text, s + 1);
    ms := MembersSound(text, read, s + 1, q, depth + 1, true);
    ObjectFromMembers(text, read, s, q, SkipMembers(text, read, q, depth + 1, true).value, ms);
  }

  lemma {:induction false} ArraySound(text: CString, read: Reader, s: nat, depth: nat) returns (items: Items)
    requires s < |text| && text[s] == '[' && depth < MAX_DEPTH && ReadsStrings(text, read)
    requires SkipItems(text, read, SkipSpace(text, s + 1), depth + 1, true).Some?
    ensures IsValue(text, read.texts, s, SkipItems(text, read, SkipSpace(text, s + 1), depth + 1, true).value,
                    Array(items))
    ensures ItemNamesIn(read.names.Keys, items) && depth + ItemNesting(items) < MAX_DEPTH
    decreases Room(depth), 0, 0
  {
    hide ReadsStrings, Space;
    var q := SkipSpace(text, s + 1);
    SpaceSkipped(text, s + 1);
    items := ItemsSound(text, read, s + 1, q, depth + 1, true);
    ArrayFromItems(text, read, s, q, SkipItems(text, read, q, depth + 1, true).value, items);
  }

  /** What is skipped is a value. */
  lemma {:induction false} ValueSound(text: CString, read: Reader, i: nat, depth: nat)
    returns (s: nat, t: Tree)
    requires i <= |text| && ReadsStrings(text, read)
    requires SkipValue(text, read, i, depth).Some?
    ensures ValueAt(text, read, i, SkipValue(text, read, i, depth).value, depth, s, t)
    decreases Room(depth), 0, 1
  {
    s := SkipSpace(text, i);
    SpaceSkipped(text, i);
    if At(text, s) == '{' {
      var members := ObjectSound(text, read, s, depth);
      t := Object(members);
    } else if At(text, s) == '[' {
      var items := ArraySound(text, read, s, depth);
      t := Array(items);
    } else {
      t := ScalarSound(text, read, s);
    }
  }

  /** What one successful round of the array's loop has read. */
  lemma {:induction false} ItemsRound(text: CString, read: Reader, q: nat, depth: nat, first: bool)
    requires q <= |text| && SkipItems(text, read, q, depth, first).Some?
    ensures q < |text|
    ensures text[q] == ']' ==> SkipItems(text, read, q, depth, first) == Some(q + 1)
    ensures text[q] != ']' ==> var from := if first then q else q + 1;
            (!first ==> text[q] == ',') && SkipValue(text, read, from, depth).Some?
            && SkipItems(text, read, q, depth, first)
               == SkipItems(text, read, SkipSpace(text, SkipValue(text, read, from, depth).value), depth, false)
  {}

  lemma {:induction false} ItemsSound(text: CString, read: Reader, p: nat, q: nat, depth: nat, first: bool)
    returns (items: Items)
    requires p <= q <= |text| && Space(text, p, q) && ReadsStrings(text, read)
    requires SkipItems(text, read, q, depth, first).Some?
    ensures ItemsFrom(text, read, p, q, SkipItems(text, read, q, depth, first).value, first, items)
    ensures ItemNamesIn(read.names.Keys, items) && (items.Item? ==> depth - 1 + ItemNesting(items) < MAX_DEPTH)
    decreases Room(depth), 1, |text| - q
  {
    hide ReadsStrings, Space, ItemsFrom, IsValue, SkipItems, SkipValue;
    ItemsRound(text, read, q, depth, first);
    if text[q] == ']' {
      items := EndOfArray(q);
      ArrayEnds(text, read, p, q, first);
    } else {
      var from := if first then q else q + 1;
      var stop := SkipValue(text, read, from, depth).value;
      var start, t := ValueSound(text, read, from, depth);
      var next := SkipSpace(text, stop);
      SpaceSkipped(text, stop);
      var rest := ItemsSound(text, read, stop, next, depth, false);
      items := Item(start, t, stop, next, rest);
      ItemsJoin(text, read, p, q, SkipItems(text, read, next, depth, false).value, first, items);
    }
  }

  lemma {:induction false} ArrayEnds(text: CString, read: Reader, p: nat, q: nat, first: bool)
    requires q < |text| && text[q] == ']'
    ensures ItemsFrom(text, read, p, q, q + 1, first, EndOfArray(q))
  {}

  lemma {:induction false} ItemsJoin(text: CString, read: Reader, p: nat, q: nat, j: nat, first: bool, items: Items)
    requires items.Item? && Space(text, p, q) && q < |text| && (!first ==> text[q] == ',')
    requires Space(text, if first then q else q + 1, items.start)
    requires IsValue(text, read.texts, items.start, items.stop, items.value) && Space(text, items.stop, items.next)
    requires ItemsFrom(text, read, items.stop, items.next, j, false, items.rest)
    ensures ItemsFrom(text, read, p, q, j, first, items)
  {}

  lemma {:induction false} NameSound(text: CString, read: Reader, p: nat) returns (name: nat, nameEnd: nat, colon: nat)
    requires p <= |text| && ReadsStrings(text, read) && SkipName(text, read, p).Some?
    ensures IsName(text, read.texts, p, name, nameEnd, colon) && name in read.names
            && SkipName(text, read, p) == Some(colon + 1)
  {
    name := SkipSpace(text, p);
    assert ReadsAt(text, read, name);
    nameEnd := read.names[name];
    colon := SkipSpace(text, nameEnd);
    SpaceSkipped(text, p);
    SpaceSkipped(text, nameEnd);
  }

  /** What one successful round of the object's loop has read. */
  lemma {:induction false} MembersRound(text: CString, read: Reader, q: nat, depth: nat, first: bool)
    requires q <= |text| && SkipMembers(text, read, q, depth, first).Some?
    ensures q < |text|
    ensures text[q] == '}' ==> SkipMembers(text, read, q, depth, first) == Some(q + 1)
    ensures text[q] != '}' ==> var from := if first then q else q + 1;
            (!first ==> text[q] == ',') && SkipName(text, read, from).Some?
            && var value := SkipValue(text, read, SkipName(text, read, from).value, depth);
               value.Some?
               && SkipMembers(text, read, q, depth, first)
                  == SkipMembers(text, read, SkipSpace(text, value.value), depth, false)
  {}

  lemma {:induction false} MembersSound(text: CString, read: Reader, p: nat, q: nat, depth: nat, first: bool)
    returns (ms: Members)
    requires p <= q <= |text| && Space(text, p, q) && ReadsStrings(text, read)
    requires SkipMembers(text, read, q, depth, first).Some?
    ensures MembersFrom(text, read, p, q, SkipMembers(text, read, q, depth, first).value, first, ms)
    ensures MemberNamesIn(read.names.Keys, ms) && (ms.Member? ==> depth - 1 + MemberNesting(ms) < MAX_DEPTH)
    decreases Room(depth), 1, |text| - q
  {
    hide ReadsStrings, Space, IsName, MembersFrom, IsValue, SkipName, SkipMembers, SkipValue;
    MembersRound(text, read, q, depth, first);
    if text[q] == '}' {
      ms := EndOfObject(q);
      ObjectEnds(text, read, p, q, first);
    } else {
      var name, nameEnd, colon := NameSound(text, read, if first then q else q + 1);
      var stop := SkipValue(text, read, colon + 1, depth).value;
      var start, t := ValueSound(text, read, colon + 1, depth);
      var next := SkipSpace(text, stop);
      SpaceSkipped(text, stop);
      var rest := MembersSound(text, read, stop, next, depth, false);
      ms := Member(name, nameEnd, colon, start, t, stop, next, rest);
      MembersJoin(text, read, p, q, SkipMembers(text, read, next, depth, false).value, first, ms);
    }
  }

  lemma {:induction false} ObjectEnds(text: CString, read: Reader, p: nat, q: nat, first: bool)
    requires q < |text| && text[q] == '}'
    ensures MembersFrom(text, read, p, q, q + 1, first, EndOfObject(q))
  {}

  lemma {:induction false} MembersJoin(text: CString, read: Reader, p: nat, q: nat, j: nat, first: bool, ms: Members)
    requires ms.Member? && Space(text, p, q) && q < |text| && (!first ==> text[q] == ',')
    requires IsName(text, read.texts, if first then q else q + 1, ms.name, ms.nameEnd, ms.colon)
             && Space(text, ms.colon + 1, ms.start)
    requires IsValue(text, read.texts, ms.start, ms.stop, ms.value) && Space(text, ms.stop, ms.next)
    requires MembersFrom(text, read, ms.stop, ms.next, j, false, ms.rest)
    ensures MembersFrom(text, read, p, q, j, first, ms)
  {}

  /** A value that a delimiter follows, nested less deeply than the bound, is
      skipped. */
  lemma {:induction false} ValueComplete(text: CString, read: Reader, i: nat, j: nat, depth: nat, s: nat, t: Tree)
    requires i <= |text| && ReadsStrings(text, read)
    requires ValueAt(text, read, i, j, depth, s, t) && IsDelimiter(At(text, j))
    ensures SkipValue(text, read, i, depth) == Some(j)
    decreases t, 2, 0
  {
    hide ReadsStrings, Space, SkipItems, SkipMembers, SkipScalar;
    ValueStartsPlainly(text, read, s, j, t);
    SpaceUnique(text, i, s);
    match t
    case Array(items) => ArrayComplete(text, read, s, j, depth, items);
    case Object(ms) => ObjectComplete(text, read, s, j, depth, ms);
    case _ => ScalarComplete(text, read, s, j, t);
  }

  lemma {:induction false} LiteralComplete(text: CString, read: Reader, s: nat, j: nat)
    requires IsValue(text, read.texts, s, j, Literal)
    ensures SkipLiteral(text, s) == Some(j) && At(text, s) in {'t', 'n', 'f'}
  {
    LiteralStart(text, s);
  }

  lemma {:induction false} LiteralStart(text: CString, s: nat)
    ensures Spells(text, s, "true") ==> text[s] == 't'
    ensures Spells(text, s, "null") ==> text[s] == 'n'
    ensures Spells(text, s, "false") ==> text[s] == 'f'
  {
    assert Spells(text, s, "true") ==> text[s + 0] == "true"[0];
    assert Spells(text, s, "null") ==> text[s + 0] == "null"[0];
    assert Spells(text, s, "false") ==> text[s + 0] == "false"[0];
  }

  lemma {:induction false} ArrayComplete(text: CString, read: Reader, s: nat, j: nat, depth: nat, items: Items)
    requires ReadsStrings(text, read)
    requires IsValue(text, read.texts, s, j, Array(items)) && ItemNamesIn(read.names.Keys, items)
             && depth + ItemNesting(items) < MAX_DEPTH
    ensures SkipItems(text, read, SkipSpace(text, s + 1), depth + 1, true) == Some(j)
    decreases items, 1, 0
  {
    hide ReadsStrings, Space;
    if items.EndOfArray? {
      SpaceUnique(text, s + 1, items.close);
    } else {
      ValueStartsPlainly(text, read, items.start, items.stop, items.value);
      SpaceUnique(text, s + 1, items.start);
      ItemsComplete(text, read, s + 1, items.start, j, depth + 1, true, items);
    }
  }

  lemma {:induction false} ObjectComplete(text: CString, read: Reader, s: nat, j: nat, depth: nat, ms: Members)
    requires ReadsStrings(text, read)
    requires IsValue(text, read.texts, s, j, Object(ms)) && MemberNamesIn(read.names.Keys, ms)
             && depth + MemberNesting(ms) < MAX_DEPTH
    ensures SkipMembers(text, read, SkipSpace(text, s + 1), depth + 1, true) == Some(j)
    decreases ms, 1, 0
  {
    hide ReadsStrings, Space, IsName, SkipName;
    if ms.EndOfObject? {
      SpaceUnique(text, s + 1, ms.close);
      EmptyObject(text, read, ms.close, depth + 1);
    } else {
      NameAhead(text, read, s + 1, j, ms);
      MembersComplete(text, read, s + 1, ms.name, j, depth + 1, true, ms);
    }
  }

  lemma {:induction false} EmptyObject(text: CString, read: Reader, k: nat, depth: nat)
    requires ReadsStrings(text, read) && k < |text| && text[k] == '}'
    ensures forall first :: SkipMembers(text, read, k, depth, first) == Some(k + 1)
  {}

  lemma {:induction false} NameAhead(text: CString, read: Reader, p: nat, j: nat, ms: Members)
    requires ReadsStrings(text, read) && IsMembers(text, read.texts, p, j, ms)
    ensures p <= ms.name < |text| && text[ms.name] == '"' && SkipSpace(text, p) == ms.name
  {
    assert ReadsAt(text, read, ms.name);
    SpaceUnique(text, p, ms.name);
  }

  lemma {:induction false} EmptyArray(text: CString, read: Reader, k: nat, depth: nat)
    requires k < |text| && text[k] == ']'
    ensures SkipItems(text, read, k, depth, false) == Some(k + 1)
  {}

  /** One round of the array's loop. */
  lemma {:induction false} ItemsStep(text: CString, read: Reader, q: nat, from: nat, depth: nat, first: bool,
                                     stop: nat, next: nat)
    requires q < |text| && stop <= |text| && from == (if first then q else q + 1)
    requires if first then !IsDelimiter(text[q]) else text[q] == ','
    requires SkipValue(text, read, from, depth) == Some(stop) && SkipSpace(text, stop) == next
    ensures SkipItems(text, read, q, depth, first) == SkipItems(text, read, next, depth, false)
  {}

  /** p follows the bracket or comma; q is where the loop stands. */
  lemma {:induction false} ItemsComplete(text: CString, read: Reader, p: nat, q: nat, j: nat, depth: nat, first: bool,
                                         items: Items)
    requires q <= |text| && ReadsStrings(text, read)
    requires IsItems(text, read.texts, p, j, items) && ItemNamesIn(read.names.Keys, items)
             && depth - 1 + ItemNesting(items) < MAX_DEPTH
    requires if first then q == items.start else q < |text| && text[q] == ',' && p == q + 1
    ensures SkipItems(text, read, q, depth, first) == Some(j)
    decreases items, 0, 0
  {
    hide ReadsStrings, SkipItems, SkipValue, SkipSpace;
    ValueStartsPlainly(text, read, items.start, items.stop, items.value);
    var from := if first then q else q + 1;
    ValueEnds(text, items.stop, items.next);
    ValueComplete(text, read, from, items.stop, depth, items.start, items.value);
    ItemsStep(text, read, q, from, depth, first, items.stop, items.next);
    if items.rest.Item? {
      ItemsComplete(text, read, items.next + 1, items.next, j, depth, false, items.rest);
    } else {
      EmptyArray(text, read, items.next, depth);
    }
  }

  /** The parts of a member are found where they stand. */
  lemma {:induction false} NameComplete(text: CString, read: Reader, p: nat, q: nat, name: nat, nameEnd: nat,
                                        colon: nat)
    requires ReadsStrings(text, read) && IsName(text, read.texts, p, name, nameEnd, colon) && name in read.names
    requires q == p || q == name
    ensures SkipName(text, read, q) == Some(colon + 1)
  {
    assert ReadsAt(text, read, name);
    SpaceUnique(text, q, name);
    SpaceUnique(text, nameEnd, colon);
  }

  lemma {:induction false} ValueEnds(text: CString, stop: nat, next: nat)
    requires Space(text, stop, next) && IsDelimiter(At(text, next)) && !IsSpace(At(text, next))
    ensures SkipSpace(text, stop) == next && IsDelimiter(At(text, stop))
  {
    SpaceUnique(text, stop, next);
  }

  lemma {:induction false} MemberSkipped(text: CString, read: Reader, p: nat, from: nat, j: nat, depth: nat,
                                         ms: Members)
    requires ReadsStrings(text, read) && ms.Member? && (from == p || from == ms.name)
    requires IsMembers(text, read.texts, p, j, ms) && MemberNamesIn(read.names.Keys, ms)
             && depth - 1 + MemberNesting(ms) < MAX_DEPTH
    ensures from <= |text| && ms.colon < |text| && SkipName(text, read, from) == Some(ms.colon + 1)
    ensures SkipValue(text, read, ms.colon + 1, depth) == Some(ms.stop)
    ensures ms.stop <= |text| && SkipSpace(text, ms.stop) == ms.next
    decreases ms, 0, 0
  {
    hide ReadsStrings, Space, IsName, SkipName;
    NameComplete(text, read, p, from, ms.name, ms.nameEnd, ms.colon);
    ValueEnds(text, ms.stop, ms.next);
    ValueComplete(text, read, ms.colon + 1, ms.stop, depth, ms.start, ms.value);
  }

  /** One round of the object's loop. */
  lemma {:induction false} MembersStep(text: CString, read: Reader, q: nat, from: nat, depth: nat, first: bool,
                                       start: nat, stop: nat, next: nat)
    requires q < |text| && start <= |text| && stop <= |text| && ReadsStrings(text, read)
    requires text[q] == (if first then '"' else ',') && from == (if first then q else q + 1)
    requires SkipName(text, read, from) == Some(start) && SkipValue(text, read, start, depth) == Some(stop)
    requires SkipSpace(text, stop) == next
    ensures SkipMembers(text, read, q, depth, first) == SkipMembers(text, read, next, depth, false)
  {}

  lemma {:induction false} MembersComplete(text: CString, read: Reader, p: nat, q: nat, j: nat, depth: nat,
                                           first: bool, ms: Members)
    requires q <= |text| && ReadsStrings(text, read)
    requires IsMembers(text, read.texts, p, j, ms) && MemberNamesIn(read.names.Keys, ms)
             && depth - 1 + MemberNesting(ms) < MAX_DEPTH
    requires if first then q == ms.name else q < |text| && text[q] == ',' && p == q + 1
    ensures SkipMembers(text, read, q, depth, first) == Some(j)
    decreases ms, 0, 1
  {
    hide ReadsStrings, Space, IsName, SkipName, SkipMembers, SkipValue, SkipSpace;
    NameAhead(text, read, p, j, ms);
    var from := if first then q else p;
    MemberSkipped(text, read, p, from, j, depth, ms);
    MembersStep(text, read, q, from, depth, first, ms.colon + 1, ms.stop, ms.next);
    if ms.rest.Member? {
      MembersComplete(text, read, ms.next + 1, ms.next, j, depth, false, ms.rest);
    } else {
      EmptyObject(text, read, ms.next, depth);
    }
  }

  /** A value begins neither with white space nor with a bracket that closes. */
  lemma {:induction false} ValueStartsPlainly(text: CString, read: Reader, i: nat, j: nat, t: Tree)
    requires ReadsStrings(text, read) && IsValue(text, read.texts, i, j, t)
    ensures !IsDelimiter(text[i])
  {
    LiteralStart(text, i);
    assert ReadsAt(text, read, i);
  }

  /** The skipper ends at j, before a delimiter, exactly when a value of the
      grammar does, nested less deeply than the bound. */
  lemma {:induction false} SkipIsExact(text: CString, read: Reader, i: nat, j: nat, depth: nat)
    requires i <= |text| && j <= |text| && ReadsStrings(text, read) && IsDelimiter(At(text, j))
    ensures SkipValue(text, read, i, depth) == Some(j) <==> exists s, t :: ValueAt(text, read, i, j, depth, s, t)
  {
    if SkipValue(text, read, i, depth) == Some(j) {
      var s, t := ValueSound(text, read, i, depth);
    }
    if exists s, t :: ValueAt(text, read, i, j, depth, s, t) {
      var s: nat, t :| ValueAt(text, read, i, j, depth, s, t);
      ValueComplete(text, read, i, j, depth, s, t);
    }
  }
}
