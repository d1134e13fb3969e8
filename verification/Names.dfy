/** How a JSON argument is found for a parameter: its own name, then camel case, then snake case. */
module Names {
  import opened Wrappers

  predicate IsLower(c: char) { 'a' <= c <= 'z' }

  predicate IsUpper(c: char) { 'A' <= c <= 'Z' }

  function ToUpper(c: char): char { if IsLower(c) then c - 'a' + 'A' else c }

  function ToLower(c: char): char { if IsUpper(c) then c - 'A' + 'a' else c }

  // ---------------------------------------------------------------- camel case

  /** Drops underscores and capitalises what follows one; `capitalize` is the pending flag. */
  function Camel(s: string, capitalize: bool): string {
    if s == [] then []
    else if s[0] == '_' then Camel(s[1..], true)
    else [if capitalize then ToUpper(s[0]) else s[0]] + Camel(s[1..], false)
  }

  method ToCamelCase(snake: string) returns (result: string)
    ensures result == Camel(snake, false)
  {
    hide Camel, ToUpper;
    result := [];
    var capitalizeNext := false;
    assert snake[0..] == snake;
    var i := 0;
    while i < |snake|
      invariant 0 <= i <= |snake|
      invariant result + Camel(snake[i..], capitalizeNext) == Camel(snake, false)
    {
      var c := snake[i];
      CamelStep(snake, i, capitalizeNext);
      if c == '_' {
        capitalizeNext := true;
      } else {
        var before := result;
        result := result + [if capitalizeNext then ToUpper(c) else c];
        assert before + Camel(snake[i..], capitalizeNext) == result + Camel(snake[i + 1..], false);
        capitalizeNext := false;
      }
      i := i + 1;
    }
    NoCamel(capitalizeNext);
    assert snake[i..] == [] && result + [] == result;
  }

  lemma NoCamel(capitalize: bool)
    ensures Camel([], capitalize) == []
  {
  }

  lemma CamelStep(s: string, i: nat, capitalize: bool)
    requires i < |s|
    ensures Camel(s[i..], capitalize) ==
      if s[i] == '_' then Camel(s[i + 1..], true)
      else [if capitalize then ToUpper(s[i]) else s[i]] + Camel(s[i + 1..], false)
  {
    assert s[i..][1..] == s[i + 1..];
  }

  lemma {:induction false} CamelLength(s: string, capitalize: bool)
    ensures |Camel(s, capitalize)| <= |s|
    ensures '_' in s ==> |Camel(s, capitalize)| < |s|
  {
    if s != [] { CamelLength(s[1..], s[0] == '_'); }
  }

  /** Camel case changes exactly the names that hold an underscore. */
  lemma {:induction false} CamelIdentity(s: string)
    ensures Camel(s, false) == s <==> '_' !in s
  {
    if '_' in s {
      CamelLength(s, false);
    } else if s != [] {
      CamelIdentity(s[1..]);
    }
  }

  // ---------------------------------------------------------------- snake case

  /** An underscore between a lower-case letter and an upper-case one, left to right without overlap. */
  function Break(s: string): string {
    if s == [] then []
    else if |s| >= 2 && IsLower(s[0]) && IsUpper(s[1]) then [s[0], '_', s[1]] + Break(s[2..])
    else [s[0]] + Break(s[1..])
  }

  function LowerAll(s: string): (r: string)
    ensures |r| == |s|
  {
    seq(|s|, i requires 0 <= i < |s| => ToLower(s[i]))
  }

  function ToSnakeCase(camel: string): string { LowerAll(Break(camel)) }

  /** The letter survives the way to snake case and back. */
  ghost predicate Kept(s: string, i: nat)
    requires i < |s|
  {
    IsUpper(s[i]) ==> i > 0 && IsLower(s[i - 1])
  }

  /** Every upper-case letter directly follows a lower-case one. */
  ghost predicate CamelCased(s: string) {
    forall i :: 0 <= i < |s| ==> Kept(s, i)
  }

  lemma LowerAllConcat(a: string, b: string)
    ensures LowerAll(a + b) == LowerAll(a) + LowerAll(b)
  {
  }

  /** A lower-case letter and the upper-case one after it come back as they were. */
  lemma PairReturns(s: string)
    requires |s| >= 2 && IsLower(s[0]) && IsUpper(s[1])
    ensures Camel(ToSnakeCase(s), false) == [s[0], s[1]] + Camel(ToSnakeCase(s[2..]), false)
  {
    hide Break;
    var rest := ToSnakeCase(s[2..]);
    var low := [s[0], '_', ToLower(s[1])] + rest;
    assert ToSnakeCase(s) == low by { PairSnake(s); }
    assert low[1..][1..] == [ToLower(s[1])] + rest && low[1..][1..][1..] == rest;
    assert Camel(low[1..][1..], true) == [s[1]] + Camel(rest, false);
    assert Camel(low[1..], false) == Camel(low[1..][1..], true);
  }

  lemma PairSnake(s: string)
    requires |s| >= 2 && IsLower(s[0]) && IsUpper(s[1])
    ensures ToSnakeCase(s) == [s[0], '_', ToLower(s[1])] + ToSnakeCase(s[2..])
  {
    LowerAllConcat([s[0], '_', s[1]], Break(s[2..]));
  }

  /** Any other first letter comes back in lower case. */
  lemma SingleReturns(s: string)
    requires s != [] && s[0] != '_' && !(|s| >= 2 && IsLower(s[0]) && IsUpper(s[1]))
    ensures Camel(ToSnakeCase(s), false) == [ToLower(s[0])] + Camel(ToSnakeCase(s[1..]), false)
  {
    SingleSnake(s);
    var low := [ToLower(s[0])] + ToSnakeCase(s[1..]);
    assert ToSnakeCase(s) == low && low[1..] == ToSnakeCase(s[1..]);
  }

  /** Cutting the name anywhere but between a lower-case and an upper-case letter keeps what is kept. */
  lemma KeptShift(s: string, n: nat)
    requires 0 < n <= |s| && (n < |s| && IsUpper(s[n]) ==> !IsLower(s[n - 1]))
    ensures forall i :: n <= i < |s| ==> (Kept(s, i) <==> Kept(s[n..], i - n))
  {
    forall i | n <= i < |s| ensures Kept(s, i) <==> Kept(s[n..], i - n) {
      assert s[n..][i - n] == s[i];
    }
  }

  /** Letter by letter, what snake case and back makes of an underscore-free name. */
  lemma {:induction false} SnakeThenCamel(s: string)
    requires '_' !in s
    ensures var back := Camel(ToSnakeCase(s), false);
      |back| == |s| && forall i :: 0 <= i < |s| ==> back[i] == if Kept(s, i) then s[i] else ToLower(s[i])
  {
    hide Camel, ToSnakeCase;
    if s == [] {
      NothingReturns();
    } else {
      var n := if |s| >= 2 && IsLower(s[0]) && IsUpper(s[1]) then 2 else 1;
      SnakeThenCamel(s[n..]);
      if n == 2 { PairReturns(s); } else { SingleReturns(s); }
      KeptShift(s, n);
    }
  }

  lemma NothingReturns()
    ensures Camel(ToSnakeCase([]), false) == []
  {
  }

  /** An underscore-free name survives snake case and back exactly when it is camel-cased. */
  lemma RoundTrip(s: string)
    requires '_' !in s
    ensures Camel(ToSnakeCase(s), false) == s <==> CamelCased(s)
  {
    SnakeThenCamel(s);
    var back := Camel(ToSnakeCase(s), false);
    if !CamelCased(s) {
      var i :| 0 <= i < |s| && !Kept(s, i);
      assert back[i] != s[i];
    }
  }

  // ---------------------------------------------------------------- both cases, letter by letter

  /** What letter `i` becomes in snake case: an underscore between lower and upper case, and the letter in lower case. */
  function SnakeLetter(s: string, i: nat): string
    requires i < |s|
  {
    (if i > 0 && 'a' <= s[i - 1] <= 'z' && 'A' <= s[i] <= 'Z' then "_" else "") +
    [if 'A' <= s[i] <= 'Z' then s[i] - 'A' + 'a' else s[i]]
  }

  function SnakeLetters(s: string, i: nat): string
    requires i <= |s|
    decreases |s| - i
  {
    if i == |s| then "" else SnakeLetter(s, i) + SnakeLetters(s, i + 1)
  }

  /** Snake case depends on each letter and the one before it only. */
  lemma SnakeByLetter(s: string)
    ensures ToSnakeCase(s) == SnakeLetters(s, 0)
  {
    SnakeFrom(s, 0);
    assert s[0..] == s;
  }

  lemma {:induction false} SnakeFrom(s: string, i: nat)
    requires i <= |s| && (0 < i < |s| ==> !(IsLower(s[i - 1]) && IsUpper(s[i])))
    ensures ToSnakeCase(s[i..]) == SnakeLetters(s, i)
    decreases |s| - i
  {
    hide Break, LowerAll;
    var rest := s[i..];
    if i == |s| {
      assert ToSnakeCase([]) == [] by { NoLetters(); }
    } else if |rest| >= 2 && IsLower(rest[0]) && IsUpper(rest[1]) {
      PairSnake(rest);
      assert rest[2..] == s[i + 2..];
      SnakeFrom(s, i + 2);
      assert SnakeLetters(s, i) == SnakeLetter(s, i) + (SnakeLetter(s, i + 1) + SnakeLetters(s, i + 2));
    } else {
      SingleSnake(rest);
      assert rest[1..] == s[i + 1..];
      SnakeFrom(s, i + 1);
    }
  }

  lemma NoLetters()
    ensures ToSnakeCase([]) == []
  {
  }

  lemma SingleSnake(s: string)
    requires s != [] && !(|s| >= 2 && IsLower(s[0]) && IsUpper(s[1]))
    ensures ToSnakeCase(s) == [ToLower(s[0])] + ToSnakeCase(s[1..])
  {
    LowerAllConcat([s[0]], Break(s[1..]));
  }

  /** What letter `i` becomes in camel case: nothing for an underscore, upper case after one. */
  function CamelLetter(s: string, i: nat): string
    requires i < |s|
  {
    if s[i] == '_' then ""
    else [if i > 0 && s[i - 1] == '_' && 'a' <= s[i] <= 'z' then s[i] - 'a' + 'A' else s[i]]
  }

  function CamelLetters(s: string, i: nat): string
    requires i <= |s|
    decreases |s| - i
  {
    if i == |s| then "" else CamelLetter(s, i) + CamelLetters(s, i + 1)
  }

  /** Camel case depends on each letter and the one before it only. */
  lemma CamelByLetter(s: string)
    ensures Camel(s, false) == CamelLetters(s, 0)
  {
    CamelFrom(s, 0);
    assert s[0..] == s;
  }

  lemma {:induction false} CamelFrom(s: string, i: nat)
    requires i <= |s|
    ensures Camel(s[i..], i > 0 && s[i - 1] == '_') == CamelLetters(s, i)
    decreases |s| - i
  {
    if i < |s| {
      CamelFrom(s, i + 1);
      assert s[i..][1..] == s[i + 1..];
    }
  }

  // ---------------------------------------------------------------- the lookup

  function Get<V>(args: map<string, V>, name: string): Option<V> {
    if name in args then Some(args[name]) else None
  }

  function OrElse<V>(a: Option<V>, b: Option<V>): Option<V> { if a.Some? then a else b }

  function Lookup<V>(args: map<string, V>, name: string): Option<V> {
    OrElse(OrElse(Get(args, name), Get(args, Camel(name, false))), Get(args, ToSnakeCase(name)))
  }

  lemma {:induction false} BreakLength(s: string)
    ensures |Break(s)| >= |s|
  {
    if s != [] {
      if |s| >= 2 && IsLower(s[0]) && IsUpper(s[1]) { BreakLength(s[2..]); } else { BreakLength(s[1..]); }
    }
  }

  /** The camel-case stage matters for exactly the names with an underscore: some arguments are found by it alone. */
  lemma CamelStageMatters(name: string)
    ensures (exists args: map<string, int> :: Lookup(args, name) != OrElse(Get(args, name), Get(args, ToSnakeCase(name))))
            <==> '_' in name
  {
    CamelIdentity(name);
    CamelLength(name, false);
    BreakLength(name);
    var args: map<string, int> := map[Camel(name, false) := 0];
    if '_' in name {
      assert Lookup(args, name) != OrElse(Get(args, name), Get(args, ToSnakeCase(name)));
    }
  }

  method ResolveArguments<V>(args: map<string, V>, params: seq<string>) returns (result: seq<Option<V>>)
    ensures |result| == |params| && forall i :: 0 <= i < |params| ==> result[i] == Lookup(args, params[i])
  {
    result := [];
    for i := 0 to |params|
      invariant |result| == i && forall j :: 0 <= j < i ==> result[j] == Lookup(args, params[j])
    {
      var value := Get(args, params[i]);
      if value.None? {
        var camelCase := ToCamelCase(params[i]);
        value := Get(args, camelCase);
      }
      if value.None? {
        value := Get(args, ToSnakeCase(params[i]));
      }
      result := result + [value];
    }
  }
}
