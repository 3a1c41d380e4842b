/** JSON texts as derivations of the grammar in sections 2 to 6 of RFC 8259.
    A derivation carries the positions at which its parts begin and end. Which
    stretches of the text are strings (section 7) is given. */
module JsonGrammar {
  import opened Numerals

  /** A text that ends at its terminator. */
  type CString = s: string | '\0' !in s

  /** The character at i; the terminator stands just after the text. */
  function At(text: CString, i: nat): char
    requires i <= |text|
  {
    if i < |text| then text[i] else '\0'
  }

  /** The word stands at i. */
  predicate Spells(text: CString, i: nat, word: string) {
    i + |word| <= |text| && forall k :: 0 <= k < |word| ==> text[i + k] == word[k]
  }

  predicate IsLiteral(text: CString, i: nat, j: nat) {
    (j == i + 4 && (Spells(text, i, "true") || Spells(text, i, "null"))) || (j == i + 5 && Spells(text, i, "false"))
  }

  predicate IsSpace(c: char) {
    c == ' ' || c == '\t' || c == '\n' || c == '\r'
  }

  predicate IsDigit(c: char) {
    '0' <= c <= '9'
  }

  /** What may follow a value: white space, a separator, a bracket, the end. */
  predicate IsDelimiter(c: char) {
    IsSpace(c) || c == ',' || c == ']' || c == '}' || c == '\0'
  }

  ghost predicate Space(text: CString, i: nat, k: nat) {
    i <= k <= |text| && forall m :: i <= m < k ==> IsSpace(text[m])
  }

  ghost predicate Digits(text: CString, i: nat, k: nat) {
    i <= k <= |text| && forall m :: i <= m < k ==> IsDigit(text[m])
  }

  /** The end of the string that begins at a position, for every string. */
  type Strings = map<nat, nat>

  predicate IsString(strings: Strings, i: nat, j: nat) {
    i in strings && strings[i] == j
  }

  // ---------- Numbers ----------

  /** The sign ends at a, the integer at b, the fraction at c; the digits of the
      exponent begin at e. */
  ghost predicate IsNumber(text: CString, i: nat, j: nat, a: nat, b: nat, c: nat, e: nat) {
    && i <= a < b <= c <= j <= |text|
    && (a == i || (a == i + 1 && text[i] == '-'))
    && (if text[a] == '0' then b == a + 1 else '1' <= text[a] <= '9' && Digits(text, a + 1, b))
    && (c == b || (text[b] == '.' && b + 1 < c && Digits(text, b + 1, c)))
    && (j == c
        || ((text[c] == 'e' || text[c] == 'E') && c < e < j && Digits(text, e, j)
            && (e == c + 1 || (e == c + 2 && (text[c + 1] == '+' || text[c + 1] == '-')))))
  }

  // ---------- Values ----------

  datatype Tree =
    | Literal
    | Text
    | Number(a: nat, b: nat, c: nat, e: nat)
    | Array(items: Items)
    | Object(members: Members)

  /** An item after '[' or ',': its value stands in [start, stop); the next
      separator or bracket stands at next. */
  datatype Items = EndOfArray(close: nat) | Item(start: nat, value: Tree, stop: nat, next: nat, rest: Items)

  datatype Members =
    | EndOfObject(close: nat)
    | Member(name: nat, nameEnd: nat, colon: nat, start: nat, value: Tree, stop: nat, next: nat, rest: Members)

  ghost predicate IsValue(text: CString, strings: Strings, i: nat, j: nat, t: Tree)
    decreases t
  {
    i < j <= |text|
    && match t
       case Literal => IsLiteral(text, i, j)
       case Text => IsString(strings, i, j)
       case Number(a, b, c, e) => IsNumber(text, i, j, a, b, c, e)
       case Array(items) =>
         text[i] == '['
         && (if items.EndOfArray? then Space(text, i + 1, items.close) && Closes(text, items.close, ']', j)
             else IsItems(text, strings, i + 1, j, items))
       case Object(members) =>
         text[i] == '{'
         && (if members.EndOfObject? then Space(text, i + 1, members.close) && Closes(text, members.close, '}', j)
             else IsMembers(text, strings, i + 1, j, members))
  }

  /** A single character and the position after it. */
  predicate Closes(text: CString, k: nat, bracket: char, j: nat) {
    k < |text| && text[k] == bracket && j == k + 1
  }

  ghost predicate IsItems(text: CString, strings: Strings, p: nat, j: nat, items: Items)
    decreases items
  {
    items.Item?
    && Space(text, p, items.start) && IsValue(text, strings, items.start, items.stop, items.value)
       && Space(text, items.stop, items.next)
    && (if items.rest.EndOfArray? then items.rest.close == items.next && Closes(text, items.next, ']', j)
        else items.next < |text| && text[items.next] == ',' && IsItems(text, strings, items.next + 1, j, items.rest))
  }

  /** A member's name and the colon after it. */
  ghost predicate IsName(text: CString, strings: Strings, p: nat, name: nat, nameEnd: nat, colon: nat) {
    Space(text, p, name) && IsString(strings, name, nameEnd) && Space(text, nameEnd, colon)
      && Closes(text, colon, ':', colon + 1)
  }

  ghost predicate IsMembers(text: CString, strings: Strings, p: nat, j: nat, ms: Members)
    decreases ms
  {
    ms.Member?
    && IsName(text, strings, p, ms.name, ms.nameEnd, ms.colon) && Space(text, ms.colon + 1, ms.start)
    && IsValue(text, strings, ms.start, ms.stop, ms.value) && Space(text, ms.stop, ms.next)
    && (if ms.rest.EndOfObject? then ms.rest.close == ms.next && Closes(text, ms.next, '}', j)
        else ms.next < |text| && text[ms.next] == ',' && IsMembers(text, strings, ms.next + 1, j, ms.rest))
  }

  // ---------- Nesting ----------

  /** The largest number of containers around a value inside t. */
  function Nesting(t: Tree): nat
    decreases t
  {
    match t
    case Array(items) => ItemNesting(items)
    case Object(members) => MemberNesting(members)
    case _ => 0
  }

  function ItemNesting(items: Items): nat
    decreases items
  {
    if items.EndOfArray? then 0 else Max(1 + Nesting(items.value), ItemNesting(items.rest))
  }

  function MemberNesting(ms: Members): nat
    decreases ms
  {
    if ms.EndOfObject? then 0 else Max(1 + Nesting(ms.value), MemberNesting(ms.rest))
  }

  // ---------- Member names ----------

  /** Every member name in t begins at one of the given positions. */
  predicate NamesIn(names: set<nat>, t: Tree)
    decreases t
  {
    match t
    case Array(items) => ItemNamesIn(names, items)
    case Object(members) => MemberNamesIn(names, members)
    case _ => true
  }

  predicate ItemNamesIn(names: set<nat>, items: Items)
    decreases items
  {
    items.Item? ==> NamesIn(names, items.value) && ItemNamesIn(names, items.rest)
  }

  predicate MemberNamesIn(names: set<nat>, ms: Members)
    decreases ms
  {
    ms.Member? ==> ms.name in names && NamesIn(names, ms.value) && MemberNamesIn(names, ms.rest)
  }
}
