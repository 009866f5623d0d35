/** Filling the named values of a translated template in one pass. */
module FormatTemplate {
  import opened Wrappers

  type Values = seq<(string, string)>

  /** A template read as literal text and closed tokens, up to a tail that holds no closed token. */
  datatype Reading = Tail(text: string) | Cut(literal: string, name: string, rest: Reading)

  function Flatten(r: Reading): string {
    match r
    case Tail(text) => text
    case Cut(literal, name, rest) => literal + "{" + name + "}" + Flatten(rest)
  }

  /** A tail is closed-token free: nothing after an opening brace closes it. */
  ghost predicate NoToken(text: string) {
    forall i, j :: 0 <= i < j < |text| && text[i] == '{' ==> text[j] != '}'
  }

  /** Every literal stops at the first opening brace and every name at the first closing one. */
  ghost predicate Proper(r: Reading) {
    match r
    case Tail(text) => NoToken(text)
    case Cut(literal, name, rest) => '{' !in literal && '}' !in name && Proper(rest)
  }

  ghost predicate Reads(r: Reading, template: string) { Proper(r) && Flatten(r) == template }

  /** The value of the first pair with this key. */
  function Lookup(values: Values, name: string): Option<string> {
    if values == [] then None
    else if values[0].0 == name then Some(values[0].1)
    else Lookup(values[1..], name)
  }

  /** What stands for a token: its value, or the token itself, braces and all. */
  function Filling(values: Values, name: string): string {
    match Lookup(values, name)
    case Some(value) => value
    case None => "{" + name + "}"
  }

  function Filled(r: Reading, values: Values): string {
    match r
    case Tail(text) => text
    case Cut(literal, name, rest) => literal + Filling(values, name) + Filled(rest, values)
  }

  // ---------------------------------------------------------------- readings exist and are unique

  function Find(s: string, c: char): (at: Option<nat>)
    ensures at.Some? ==> at.value < |s| && s[at.value] == c && c !in s[..at.value]
    ensures at.None? ==> c !in s
  {
    if s == "" then None
    else if s[0] == c then Some(0)
    else match Find(s[1..], c)
         case None => None
         case Some(k) =>
           assert s[..k + 1] == [s[0]] + s[1..][..k];
           Some(k + 1)
  }

  /** Cut the first closed token off, or find that there is none. */
  function Tokenise(s: string): Reading
    decreases |s|
  {
    match Find(s, '{')
    case None => Tail(s)
    case Some(start) =>
      match Find(s[start..], '}')
      case None => Tail(s)
      case Some(end) => Cut(s[..start], s[start..][1..end], Tokenise(s[start..][end + 1..]))
  }

  /** Every template has a proper reading, and its pieces flatten back to the template. */
  lemma {:induction false} TokeniseReads(s: string)
    ensures Reads(Tokenise(s), s)
    decreases |s|
  {
    match Find(s, '{')
    case None =>
    case Some(start) =>
      var rest := s[start..];
      match Find(rest, '}')
      case None => UnclosedTail(s, start);
      case Some(end) =>
        TokeniseReads(rest[end + 1..]);
        CutApart(s, start, end);
  }

  lemma UnclosedTail(s: string, start: nat)
    requires start < |s| && '{' !in s[..start] && '}' !in s[start..]
    ensures NoToken(s)
  {
    forall i | 0 <= i < start ensures s[i] != '{' { assert s[..start][i] == s[i]; }
    forall i, j | 0 <= i < j < |s| && s[i] == '{' ensures s[j] != '}' {
      assert s[start..][j - start] == s[j];
    }
  }

  lemma CutApart(s: string, start: nat, end: nat)
    requires start < |s| && s[start] == '{' && end < |s| - start && s[start..][end] == '}' && '}' !in s[start..][..end]
    ensures end > 0 && '}' !in s[start..][1..end]
    ensures s == s[..start] + "{" + s[start..][1..end] + "}" + s[start..][end + 1..]
  {
    var rest := s[start..];
    assert rest[0] == '{';
    assert forall i :: 0 <= i < end - 1 ==> rest[1..end][i] == rest[..end][i + 1];
    assert rest == "{" + rest[1..end] + "}" + rest[end + 1..];
    assert s == s[..start] + rest;
  }

  lemma SamePrefix(a: string, x: string, b: string, y: string, c: char)
    requires c !in a && c !in b && a + [c] + x == b + [c] + y
    ensures a == b && x == y
  {
    var s, t := a + [c] + x, b + [c] + y;
    assert s[|a|] == c && t[|b|] == c;
    forall i | 0 <= i < |b| ensures t[i] != c { assert t[i] == b[i]; }
    forall i | 0 <= i < |a| ensures s[i] != c { assert s[i] == a[i]; }
    assert |a| == |b|;
    assert a == s[..|a|] && b == t[..|b|];
    assert x == s[|a| + 1..] && y == t[|b| + 1..];
  }

  lemma TokenIsNotTail(literal: string, name: string, rest: string)
    ensures !NoToken(literal + "{" + name + "}" + rest)
  {
    var s := literal + "{" + name + "}" + rest;
    var i, j := |literal|, |literal| + 1 + |name|;
    assert s[i] == '{' && s[j] == '}';
  }

  /** A template has one proper reading only. */
  lemma {:induction false} ReadingUnique(a: Reading, b: Reading, template: string)
    requires Reads(a, template) && Reads(b, template)
    ensures a == b
    decreases a
  {
    match (a, b)
    case (Tail(_), Tail(_)) =>
    case (Cut(l, n, r), Tail(_)) => TokenIsNotTail(l, n, Flatten(r));
    case (Tail(_), Cut(l, n, r)) => TokenIsNotTail(l, n, Flatten(r));
    case (Cut(l, n, r), Cut(l', n', r')) =>
      assert l + ['{'] + (n + ['}'] + Flatten(r)) == template == l' + ['{'] + (n' + ['}'] + Flatten(r'));
      SamePrefix(l, n + ['}'] + Flatten(r), l', n' + ['}'] + Flatten(r'), '{');
      SamePrefix(n, Flatten(r), n', Flatten(r'), '}');
      ReadingUnique(r, r', Flatten(r));
  }

  // ---------------------------------------------------------------- the loop

  /** What one turn of the loop does, by what its two searches find. */
  lemma FirstToken(s: string, values: Values, done: string)
    ensures match Find(s, '{')
            case None => Filled(Tokenise(s), values) == s
            case Some(start) =>
              var rest := s[start..];
              match Find(rest, '}')
              case None => done + Filled(Tokenise(s), values) == done + s[..start] + rest
              case Some(end) =>
                && end > 0
                && done + Filled(Tokenise(s), values)
                   == done + s[..start]
                      + (match Lookup(values, rest[1..end]) case Some(value) => value case None => rest[..end + 1])
                      + Filled(Tokenise(rest[end + 1..]), values)
  {
    hide Lookup, Find, Tokenise, Filled;
    TokeniseCases(s);
    match Find(s, '{')
    case None => FilledTail(s, values);
    case Some(start) =>
      var rest := s[start..];
      match Find(rest, '}')
      case None =>
        FilledTail(s, values);
        assert done + s == done + (s[..start] + rest) == done + s[..start] + rest;
      case Some(end) =>
        FilledCut(s[..start], rest[1..end], Tokenise(rest[end + 1..]), values);
        TokenText(rest, end);
        Regroup(done, s[..start], Filling(values, rest[1..end]), Filled(Tokenise(rest[end + 1..]), values));
  }

  lemma TokeniseCases(s: string)
    ensures match Find(s, '{')
            case None => Tokenise(s) == Tail(s)
            case Some(start) =>
              match Find(s[start..], '}')
              case None => Tokenise(s) == Tail(s)
              case Some(end) =>
                end > 0 && Tokenise(s) == Cut(s[..start], s[start..][1..end], Tokenise(s[start..][end + 1..]))
  {
    hide Find;
    match Find(s, '{')
    case None =>
    case Some(start) => assert s[start..][0] == '{';
  }

  lemma FilledTail(s: string, values: Values)
    ensures Filled(Tail(s), values) == s
  {
  }

  lemma FilledCut(literal: string, name: string, rest: Reading, values: Values)
    ensures Filled(Cut(literal, name, rest), values) == literal + Filling(values, name) + Filled(rest, values)
  {
  }

  lemma TokenText(rest: string, end: nat)
    requires 0 < end < |rest| && rest[0] == '{' && rest[end] == '}'
    ensures rest[..end + 1] == "{" + rest[1..end] + "}"
  {
  }

  lemma Regroup(done: string, a: string, b: string, c: string)
    ensures done + (a + b + c) == done + a + b + c
  {
  }

  /**
   The output is the template's one reading, literals and tail verbatim and each token replaced by its filling:
   the tokens are those of the template, never of an inserted value.
   */
  method Format(template: string, values: Values) returns (result: string)
    ensures forall r :: Reads(r, template) ==> result == Filled(r, values)
  {
    hide Tokenise, Filled, Filling, Lookup, Reads, Find;
    result := "";
    var rest := template;
    var start := Find(rest, '{');
    while start.Some?
      invariant start == Find(rest, '{')
      invariant result + Filled(Tokenise(rest), values) == Filled(Tokenise(template), values)
      decreases |rest|
    {
      FirstToken(rest, values, result);
      result := result + rest[..start.value];
      rest := rest[start.value..];
      var end := Find(rest, '}');
      if end.None? {
        break;
      }
      var name := rest[1..end.value];
      var value := Lookup(values, name);
      if value.Some? {
        result := result + value.value;
      } else {
        result := result + rest[..end.value + 1];
      }
      rest := rest[end.value + 1..];
      start := Find(rest, '{');
    }
    FirstToken(rest, values, result);
    result := result + rest;
    forall r | Reads(r, template) ensures result == Filled(r, values) {
      TokeniseReads(template);
      ReadingUnique(r, Tokenise(template), template);
    }
  }

  // ---------------------------------------------------------------- what the filling means

  ghost predicate Names(r: Reading, name: string) {
    match r
    case Tail(_) => false
    case Cut(_, n, rest) => n == name || Names(rest, name)
  }

  /** A token that is unknown, or whose value is that very token, stands as it was: no other token is looked at. */
  lemma {:induction false} UnchangedWithoutValues(r: Reading, template: string, values: Values)
    requires Reads(r, template)
    requires forall name :: Names(r, name) ==> Lookup(values, name) in {None, Some("{" + name + "}")}
    ensures Filled(r, values) == template
  {
    match r
    case Tail(_) =>
    case Cut(literal, name, rest) =>
      assert Names(r, name);
      forall n | Names(rest, n) ensures Names(r, n) {}
      UnchangedWithoutValues(rest, Flatten(rest), values);
  }

  /** Only the values of the template's own names matter, whatever those values spell. */
  lemma {:induction false} OwnNamesOnly(r: Reading, values: Values, others: Values)
    requires forall name :: Names(r, name) ==> Lookup(values, name) == Lookup(others, name)
    ensures Filled(r, values) == Filled(r, others)
  {
    match r
    case Tail(_) =>
    case Cut(_, name, rest) =>
      assert Names(r, name);
      forall n | Names(rest, n) ensures Names(r, n) {}
      OwnNamesOnly(rest, values, others);
  }

  function Then(a: Reading, b: Reading): Reading {
    match a
    case Tail(text) => (match b case Tail(t) => Tail(text + t) case Cut(l, n, r) => Cut(text + l, n, r))
    case Cut(literal, name, rest) => Cut(literal, name, Then(rest, b))
  }

  /** The text after the last closed token. */
  function TailOf(r: Reading): string {
    match r
    case Tail(text) => text
    case Cut(_, _, rest) => TailOf(rest)
  }

  /** Filling a template that ends with no open brace, followed by another, is filling each. */
  lemma {:induction false} FilledAppend(a: Reading, b: Reading, s: string, t: string, values: Values)
    requires Reads(a, s) && Reads(b, t) && '{' !in TailOf(a)
    ensures Reads(Then(a, b), s + t)
    ensures Filled(Then(a, b), values) == Filled(a, values) + Filled(b, values)
  {
    match a
    case Tail(text) =>
      match b {
        case Tail(other) =>
          forall i, j | 0 <= i < j < |text + other| && (text + other)[i] == '{' ensures (text + other)[j] != '}' {
            assert i >= |text|;
            assert other[i - |text|] == '{' && other[j - |text|] == (text + other)[j];
          }
        case Cut(l, n, rest) =>
          assert text + l + "{" + n + "}" + Flatten(rest) == text + (l + "{" + n + "}" + Flatten(rest));
          assert text + l + Filling(values, n) + Filled(rest, values) == text
              + (l + Filling(values, n) + Filled(rest, values));
      }
    case Cut(literal, name, rest) =>
      FilledAppend(rest, b, Flatten(rest), t, values);
      var token := literal + "{" + name + "}";
      assert token + (Flatten(rest) + t) == token + Flatten(rest) + t;
      var filled := literal + Filling(values, name);
      assert filled + (Filled(rest, values) + Filled(b, values)) == filled + Filled(rest, values) + Filled(b, values);
  }
}
