/** The pure list, option and string helpers of the TypeScript library:
    `escapeRegExp`, `toArray`, `getDefinedValue`, `fallback`,
    `fallbackEmpty` and `selectMany`. A value that may be `null` or
    `undefined` is an `Option`; both of those are `None`. */
module Helpers {
  import opened Wrappers

  // ---------------------------------------------------------------------
  // escapeRegExp
  // ---------------------------------------------------------------------

  /** The characters `escapeRegExp` puts a backslash in front of:
      `. * + ? ^ = ! : $ { } ( ) | [ ] / \`. */
  predicate IsEscaped(ch: char)
  {
    || ch == '.' || ch == '*' || ch == '+' || ch == '?' || ch == '^' || ch == '='
    || ch == '!' || ch == ':' || ch == '$' || ch == '{' || ch == '}' || ch == '('
    || ch == ')' || ch == '|' || ch == '[' || ch == ']' || ch == '/' || ch == '\\'
  }

  /** The SyntaxCharacters of an ECMAScript pattern (section 22.2.1 of
      ECMA-262): outside an escape each of them means something other than
      itself. */
  predicate IsSyntaxCharacter(ch: char)
  {
    || ch == '^' || ch == '$' || ch == '\\' || ch == '.' || ch == '*' || ch == '+'
    || ch == '?' || ch == '(' || ch == ')' || ch == '[' || ch == ']' || ch == '{'
    || ch == '}' || ch == '|'
  }

  /** How many characters of `s` are escaped. */
  function CountEscaped(s: string): nat
  {
    if s == [] then 0 else (if IsEscaped(s[0]) then 1 else 0) + CountEscaped(s[1..])
  }

  /** `escapeRegExp`: every escaped character gets one backslash in front of
      it; every other character is copied. */
  function EscapeRegExp(s: string): (r: string)
    ensures |r| == |s| + CountEscaped(s)
  {
    if s == [] then []
    else (if IsEscaped(s[0]) then ['\\', s[0]] else [s[0]]) + EscapeRegExp(s[1..])
  }

  /** Reads a pattern made only of literal characters and identity escapes
      (`\` followed by an escaped character), giving the text it matches;
      `None` for a pattern with an unescaped SyntaxCharacter or any other
      escape. */
  function LiteralText(p: string): (r: Option<string>)
    decreases |p|
  {
    if p == [] then Some([])
    else if p[0] == '\\' then
      if |p| >= 2 && IsEscaped(p[1]) then
        match LiteralText(p[2..])
        case Some(rest) => Some([p[1]] + rest)
        case None => None
      else None
    else if IsSyntaxCharacter(p[0]) then None
    else
      match LiteralText(p[1..])
      case Some(rest) => Some([p[0]] + rest)
      case None => None
  }

  /** Every SyntaxCharacter is escaped, so nothing in the output of
      `escapeRegExp` keeps a special meaning. */
  lemma SyntaxCharactersEscaped(ch: char)
    ensures IsSyntaxCharacter(ch) ==> IsEscaped(ch)
  {
  }

  /** The escaped text, read as a pattern, is a literal that matches exactly
      the input: dropping the inserted backslashes gives the input back. */
  lemma {:induction false} LiteralTextOfEscape(s: string)
    ensures LiteralText(EscapeRegExp(s)) == Some(s)
    decreases |s|
  {
    if s != [] {
      LiteralTextOfEscape(s[1..]);
      var p := EscapeRegExp(s);
      if IsEscaped(s[0]) {
        assert p[2..] == EscapeRegExp(s[1..]);
      } else {
        assert p[1..] == EscapeRegExp(s[1..]);
      }
      assert s == [s[0]] + s[1..];
    }
  }

  /** No two texts escape to the same pattern. */
  lemma EscapeInjective(a: string, b: string)
    requires EscapeRegExp(a) == EscapeRegExp(b)
    ensures a == b
  {
    LiteralTextOfEscape(a);
    LiteralTextOfEscape(b);
  }

  /** Escaping works character by character, so it distributes over
      concatenation. */
  lemma {:induction false} EscapeAppend(a: string, b: string)
    ensures EscapeRegExp(a + b) == EscapeRegExp(a) + EscapeRegExp(b)
    decreases |a|
  {
    if a != [] {
      assert (a + b)[0] == a[0];
      assert (a + b)[1..] == a[1..] + b;
      EscapeAppend(a[1..], b);
    } else {
      assert a + b == b;
    }
  }

  /** A text with no escaped character is its own pattern. */
  lemma {:induction false} EscapePlain(s: string)
    requires forall i | 0 <= i < |s| :: !IsEscaped(s[i])
    ensures EscapeRegExp(s) == s
    decreases |s|
  {
    if s != [] {
      EscapePlain(s[1..]);
      assert s == [s[0]] + s[1..];
    }
  }

  // ---------------------------------------------------------------------
  // toArray
  // ---------------------------------------------------------------------

  /** The argument of `toArray`: `null`/`undefined`, one element, or an array. */
  datatype Element<T> = Missing | Single(value: T) | Many(values: seq<T>)

  /** `toArray`: `[]` for a missing element, the array itself for an array,
      a one-element array otherwise. */
  function ToArray<T>(element: Element<T>): (r: seq<T>)
    ensures r == [] <==> element.Missing? || element == Many([])
    ensures element.Single? ==> r == [element.value]
    ensures element.Many? ==> r == element.values
  {
    match element
    case Missing => []
    case Single(value) => [value]
    case Many(values) => values
  }

  /** What `toArray` holds is the one element, or what the array holds. */
  lemma ToArrayMembership<T>(element: Element<T>, x: T)
    ensures x in ToArray(element) <==>
      (element.Single? && x == element.value) || (element.Many? && x in element.values)
  {
  }

  /** An array passes through unchanged, so `toArray` of a result of
      `toArray` is that result. */
  lemma ToArrayIdempotent<T>(element: Element<T>)
    ensures ToArray(Many(ToArray(element))) == ToArray(element)
  {
  }

  // ---------------------------------------------------------------------
  // getDefinedValue, fallback, fallbackEmpty
  // ---------------------------------------------------------------------

  /** `getDefinedValue`: the other value when one is missing; when both are
      defined, `check` of the two, or nothing when there is no `check`. */
  function GetDefinedValue<T>(value1: Option<T>, value2: Option<T>, check: Option<(T, T) -> T>): (r: Option<T>)
    ensures value1.None? ==> r == value2
    ensures value2.None? ==> r == value1
    ensures r.None? <==> (value1.None? && value2.None?) || (value1.Some? && value2.Some? && check.None?)
    ensures value1.Some? && value2.Some? && check.Some? ==> r == Some(check.value(value1.value, value2.value))
  {
    if value1.None? then value2
    else if value2.None? then value1
    else if check.None? then None
    else Some(check.value(value1.value, value2.value))
  }

  /** `check` with its arguments swapped. */
  function Flip<T>(check: Option<(T, T) -> T>): Option<(T, T) -> T>
  {
    match check
    case None => None
    case Some(f) => Some((a: T, b: T) => f(b, a))
  }

  /** The two values play symmetric roles: swapping them and the
      arguments of `check` gives the same answer. */
  lemma GetDefinedValueSwap<T>(value1: Option<T>, value2: Option<T>, check: Option<(T, T) -> T>)
    ensures GetDefinedValue(value2, value1, Flip(check)) == GetDefinedValue(value1, value2, check)
  {
  }

  /** With a `check` that picks one of its arguments (a minimum, a maximum),
      a defined result is one of the defined inputs. */
  lemma GetDefinedValueSelects<T>(value1: Option<T>, value2: Option<T>, f: (T, T) -> T)
    requires forall a, b :: f(a, b) == a || f(a, b) == b
    ensures var r := GetDefinedValue(value1, value2, Some(f));
      r.Some? ==> r == value1 || r == value2
  {
  }

  /** `fallback`: the value unless it is missing, then the fallback. */
  function Fallback<T>(value: Option<T>, fallbackValue: T): (r: T)
    ensures value.Some? ==> r == value.value
    ensures value.None? ==> r == fallbackValue
  {
    if value.None? then fallbackValue else value.value
  }

  /** Falling back twice is falling back once to the first defined of the
      two values: `getDefinedValue` with a `check` that keeps its first
      argument. */
  lemma FallbackChain<T>(value: Option<T>, other: Option<T>, fallbackValue: T)
    ensures Fallback(value, Fallback(other, fallbackValue)) ==
      Fallback(GetDefinedValue(value, other, Some((a: T, b: T) => a)), fallbackValue)
  {
  }

  /** `fallbackEmpty` on strings: a missing or empty value gives the
      fallback, or `""` when the fallback is missing; any other value is
      kept. The one-argument overload is `fallbackValue == None`. */
  function FallbackEmpty(value: Option<string>, fallbackValue: Option<string>): (r: string)
    ensures value.Some? && value.value != "" ==> r == value.value
    ensures (value.None? || value.value == "") && fallbackValue.Some? ==> r == fallbackValue.value
    ensures r == "" <==> (value.None? || value.value == "") && (fallbackValue.None? || fallbackValue.value == "")
  {
    if value.None? || value.value == "" then
      if fallbackValue.None? then "" else fallbackValue.value
    else value.value
  }

  /** Applying `fallbackEmpty` again with the same fallback changes nothing. */
  lemma FallbackEmptyIdempotent(value: Option<string>, fallbackValue: Option<string>)
    ensures FallbackEmpty(Some(FallbackEmpty(value, fallbackValue)), fallbackValue) == FallbackEmpty(value, fallbackValue)
  {
  }

  /** `fallbackEmpty` differs from `fallback` only on the empty string. */
  lemma FallbackEmptyIsFallback(value: Option<string>, fallbackValue: string)
    requires value != Some("")
    ensures FallbackEmpty(value, Some(fallbackValue)) == Fallback(value, fallbackValue)
  {
  }

  /** The one-argument overload is `fallback` to the empty string. */
  lemma FallbackEmptyOneArgument(value: Option<string>)
    ensures FallbackEmpty(value, None) == Fallback(value, "")
  {
  }

  // ---------------------------------------------------------------------
  // selectMany
  // ---------------------------------------------------------------------

  /** `array.map(selector)`. */
  function Map<T, U>(items: seq<T>, selector: T -> seq<U>): (r: seq<seq<U>>)
    ensures |r| == |items|
    ensures forall i | 0 <= i < |items| :: r[i] == selector(items[i])
  {
    seq(|items|, i requires 0 <= i < |items| => selector(items[i]))
  }

  /** `reduce((a, b) => a.concat(b))` continued from `acc` over `rest`. */
  function ConcatFrom<U>(acc: seq<U>, rest: seq<seq<U>>): seq<U>
    decreases |rest|
  {
    if rest == [] then acc else ConcatFrom(acc + rest[0], rest[1..])
  }

  /** The in-order concatenation of a sequence of sequences. */
  function Flatten<U>(xss: seq<seq<U>>): seq<U>
  {
    if xss == [] then [] else xss[0] + Flatten(xss[1..])
  }

  lemma {:induction false} ConcatFromFlatten<U>(acc: seq<U>, rest: seq<seq<U>>)
    ensures ConcatFrom(acc, rest) == acc + Flatten(rest)
    decreases |rest|
  {
    if rest != [] {
      ConcatFromFlatten(acc + rest[0], rest[1..]);
    }
  }

  /** `selectMany`: `[]` for an empty array, else the mapped arrays
      reduced with `concat`, starting from the first. Whichever way, the
      result is the in-order concatenation of the selector's results. */
  function SelectMany<T, U>(items: seq<T>, selector: T -> seq<U>): (r: seq<U>)
    ensures r == Flatten(Map(items, selector))
  {
    var result := Map(items, selector);
    if |result| == 0 then []
    else
      ConcatFromFlatten(result[0], result[1..]);
      ConcatFrom(result[0], result[1..])
  }

  lemma {:induction false} FlattenAppend<U>(xss: seq<seq<U>>, yss: seq<seq<U>>)
    ensures Flatten(xss + yss) == Flatten(xss) + Flatten(yss)
    decreases |xss|
  {
    if xss == [] {
      assert xss + yss == yss;
    } else {
      assert (xss + yss)[1..] == xss[1..] + yss;
      FlattenAppend(xss[1..], yss);
    }
  }

  /** `selectMany` over two arrays joined is the two results joined. */
  lemma SelectManyAppend<T, U>(a: seq<T>, b: seq<T>, selector: T -> seq<U>)
    ensures SelectMany(a + b, selector) == SelectMany(a, selector) + SelectMany(b, selector)
  {
    assert Map(a + b, selector) == Map(a, selector) + Map(b, selector);
    FlattenAppend(Map(a, selector), Map(b, selector));
  }

  /** `selectMany` of one element is the selector's result for it. */
  lemma SelectManySingle<T, U>(x: T, selector: T -> seq<U>)
    ensures SelectMany([x], selector) == selector(x)
  {
  }

  lemma {:induction false} FlattenMembership<U>(xss: seq<seq<U>>, y: U)
    ensures y in Flatten(xss) <==> exists i | 0 <= i < |xss| :: y in xss[i]
    decreases |xss|
  {
    if xss != [] {
      FlattenMembership(xss[1..], y);
      if y in Flatten(xss[1..]) {
        var i :| 0 <= i < |xss[1..]| && y in xss[1..][i];
        assert y in xss[i + 1];
      }
      if exists i | 0 <= i < |xss| :: y in xss[i] {
        var i :| 0 <= i < |xss| && y in xss[i];
        if i > 0 {
          assert y in xss[1..][i - 1];
        }
      }
    }
  }

  /** An element is in the result of `selectMany` exactly when the selector
      produces it for some element of the array. */
  lemma SelectManyMembership<T, U>(items: seq<T>, selector: T -> seq<U>, y: U)
    ensures y in SelectMany(items, selector) <==> exists i | 0 <= i < |items| :: y in selector(items[i])
  {
    FlattenMembership(Map(items, selector), y);
  }

  /** The length of the result is the sum of the lengths the selector produces. */
  function TotalLength<U>(xss: seq<seq<U>>): nat
  {
    if xss == [] then 0 else |xss[0]| + TotalLength(xss[1..])
  }

  lemma {:induction false} FlattenLength<U>(xss: seq<seq<U>>)
    ensures |Flatten(xss)| == TotalLength(xss)
    decreases |xss|
  {
    if xss != [] {
      FlattenLength(xss[1..]);
    }
  }

  lemma SelectManyLength<T, U>(items: seq<T>, selector: T -> seq<U>)
    ensures |SelectMany(items, selector)| == TotalLength(Map(items, selector))
  {
    FlattenLength(Map(items, selector));
  }
}
