/** utils::escape: put a backslash before every special character that has none yet. */
module Escaping {

  /** The character one past the end of a std::string. */
  const NUL := '\0'

  predicate HasSpecial(s: string, chars: string) {
    exists c :: c in s && c in chars
  }

  /** What the loop writes for the rest of the input. */
  function Rewritten(s: string, chars: string): string {
    if s == [] then []
    else if s[0] == '\\' then
      if |s| == 1 then ['\\', NUL] else [s[0], s[1]] + Rewritten(s[2..], chars)
    else (if s[0] in chars then ['\\', s[0]] else [s[0]]) + Rewritten(s[1..], chars)
  }

  /** The inputs on which the loop runs at all. */
  predicate LoopRuns(s: string, chars: string) {
    |s| > 1 && '\\' !in chars && HasSpecial(s, chars)
  }

  function Escaped(s: string, chars: string): string {
    if |s| == 1 && s[0] in chars then ['\\'] + s
    else if LoopRuns(s, chars) then Rewritten(s, chars)
    else s
  }

  method FindFirstOf(s: string, chars: string) returns (found: bool)
    ensures found == HasSpecial(s, chars)
  {
    for i := 0 to |s|
      invariant forall k :: 0 <= k < i ==> s[k] !in chars
    {
      if s[i] in chars {
        return true;
      }
    }
    return false;
  }

  /** One turn of the loop at index i. */
  lemma Turn(s: string, chars: string, i: nat, out: string)
    requires i < |s|
    ensures var c, rest := s[i], Rewritten(s[i..], chars);
            if c == '\\' then
              if i + 1 == |s| then out + rest == out + [c, NUL]
              else out + rest == out + [c, s[i + 1]] + Rewritten(s[i + 2..], chars)
            else if c in chars then out + rest == out + ['\\', c] + Rewritten(s[i + 1..], chars)
            else out + rest == out + [c] + Rewritten(s[i + 1..], chars)
  {
    var rest := s[i..];
    assert rest[1..] == s[i + 1..];
    if i + 1 < |s| {
      assert rest[2..] == s[i + 2..];
    }
  }

  method Escape(s: string, chars: string) returns (out: string)
    ensures out == Escaped(s, chars)
  {
    if s == [] || chars == [] {
      return s;
    }
    var special := FindFirstOf(s, chars);
    if |s| == 1 && special {
      return ['\\'] + s;
    }
    if '\\' in chars {
      return s;
    }
    if !special {
      return s;
    }
    out := [];
    var i := 0;
    while i < |s|
      invariant 0 <= i
      invariant i <= |s| ==> Rewritten(s, chars) == out + Rewritten(s[i..], chars)
      invariant i > |s| ==> Rewritten(s, chars) == out
    {
      Turn(s, chars, i, out);
      if s[i] == '\\' {
        out := out + [s[i], if i + 1 < |s| then s[i + 1] else NUL];
        i := i + 1;
      } else if s[i] in chars {
        out := out + ['\\', s[i]];
      } else {
        out := out + [s[i]];
      }
      i := i + 1;
    }
  }

  /** sql_escape. */
  method SqlEscape(s: string) returns (out: string)
    ensures out == Escaped(s, "_%")
  {
    out := Escape(s, "_%");
  }

  // ---------- what escaping achieves ----------

  /** Every special character stands right behind a backslash that is not itself escaped. */
  predicate Guarded(s: string, chars: string) {
    if s == [] then true
    else if s[0] == '\\' then |s| == 1 || Guarded(s[2..], chars)
    else s[0] !in chars && Guarded(s[1..], chars)
  }

  /** The last backslash escapes nothing. */
  predicate Dangling(s: string) {
    if s == [] then false
    else if s[0] == '\\' then |s| == 1 || Dangling(s[2..])
    else Dangling(s[1..])
  }

  /** Reading an escaped string: drop each escaping backslash; a dangling one stands for itself. */
  function Unescaped(s: string): string {
    if s == [] then []
    else if s[0] == '\\' && |s| > 1 then [s[1]] + Unescaped(s[2..])
    else [s[0]] + Unescaped(s[1..])
  }

  lemma {:induction false} PlainIsGuarded(s: string, chars: string)
    requires !HasSpecial(s, chars)
    ensures Guarded(s, chars)
  {
    if s != [] {
      assert forall c :: c in s[1..] ==> c in s;
      if s[0] == '\\' && |s| > 1 {
        assert forall c :: c in s[2..] ==> c in s;
        PlainIsGuarded(s[2..], chars);
      } else {
        PlainIsGuarded(s[1..], chars);
      }
    }
  }

  lemma Pair(a: char, b: char, t: string)
    ensures ([a, b] + t)[0] == a && ([a, b] + t)[1] == b && ([a, b] + t)[2..] == t && |[a, b] + t| > 1
  {
  }

  lemma Single(a: char, t: string)
    ensures ([a] + t)[0] == a && ([a] + t)[1..] == t
  {
  }

  lemma {:induction false} RewrittenIsGuarded(s: string, chars: string)
    requires '\\' !in chars
    ensures Guarded(Rewritten(s, chars), chars) && !Dangling(Rewritten(s, chars))
  {
    if s != [] {
      if s[0] == '\\' {
        if |s| > 1 {
          RewrittenIsGuarded(s[2..], chars);
          Pair(s[0], s[1], Rewritten(s[2..], chars));
        }
      } else {
        RewrittenIsGuarded(s[1..], chars);
        Pair('\\', s[0], Rewritten(s[1..], chars));
        Single(s[0], Rewritten(s[1..], chars));
      }
    }
  }

  /** No special character is left bare, whatever the input. */
  lemma EscapedIsGuarded(s: string, chars: string)
    requires '\\' !in chars
    ensures Guarded(Escaped(s, chars), chars)
  {
    if LoopRuns(s, chars) {
      RewrittenIsGuarded(s, chars);
    } else if !(|s| == 1 && s[0] in chars) {
      assert forall c :: |s| == 1 && c in s ==> c == s[0];
      PlainIsGuarded(s, chars);
    }
  }

  lemma {:induction false} GuardedStays(s: string, chars: string)
    requires Guarded(s, chars) && !Dangling(s)
    ensures Rewritten(s, chars) == s
  {
    if s != [] {
      if s[0] == '\\' {
        GuardedStays(s[2..], chars);
        assert s == [s[0], s[1]] + s[2..];
      } else {
        GuardedStays(s[1..], chars);
        assert s == [s[0]] + s[1..];
      }
    }
  }

  /** Escaping twice is escaping once, for all inputs and all sets of special characters. */
  lemma EscapeIsIdempotent(s: string, chars: string)
    ensures Escaped(Escaped(s, chars), chars) == Escaped(s, chars)
  {
    var out := Escaped(s, chars);
    if LoopRuns(s, chars) {
      RewrittenIsGuarded(s, chars);
      GuardedStays(out, chars);
      RewrittenGrows(s, chars);
    } else if |s| == 1 && s[0] in chars {
      assert out == ['\\', s[0]];
      assert out[2..] == [] && Rewritten(out, chars) == out;
    }
  }

  lemma {:induction false} RewrittenGrows(s: string, chars: string)
    ensures |Rewritten(s, chars)| >= |s|
  {
    if s != [] {
      if s[0] == '\\' && |s| > 1 {
        RewrittenGrows(s[2..], chars);
      } else {
        RewrittenGrows(s[1..], chars);
      }
    }
  }

  /** Read back, the rewritten text is the text that was meant, unless a backslash dangled. */
  lemma {:induction false} RewrittenReadsBack(s: string, chars: string)
    requires '\\' !in chars
    ensures Unescaped(Rewritten(s, chars)) == Unescaped(s) <==> !Dangling(s)
    ensures |Unescaped(Rewritten(s, chars))| == |Unescaped(s)|
  {
    if s != [] {
      if s[0] == '\\' {
        if |s| > 1 {
          RewrittenReadsBack(s[2..], chars);
          Pair(s[0], s[1], Rewritten(s[2..], chars));
          SameHead(s[1], Unescaped(Rewritten(s[2..], chars)), Unescaped(s[2..]));
        } else {
          assert Unescaped(s) == ['\\'] && ['\\', NUL][2..] == [];
          assert Unescaped(['\\', NUL]) == [NUL];
        }
      } else {
        RewrittenReadsBack(s[1..], chars);
        Pair('\\', s[0], Rewritten(s[1..], chars));
        Single(s[0], Rewritten(s[1..], chars));
        SameHead(s[0], Unescaped(Rewritten(s[1..], chars)), Unescaped(s[1..]));
      }
    }
  }

  lemma SameHead(c: char, a: string, b: string)
    ensures [c] + a == [c] + b <==> a == b
  {
    assert ([c] + a)[1..] == a && ([c] + b)[1..] == b;
  }

  /** Escaping keeps the meaning, exactly unless the loop meets a dangling backslash and reads past the end. */
  lemma EscapeKeepsMeaning(s: string, chars: string)
    ensures Unescaped(Escaped(s, chars)) == Unescaped(s) <==> !(LoopRuns(s, chars) && Dangling(s))
  {
    if LoopRuns(s, chars) {
      RewrittenReadsBack(s, chars);
    } else if |s| == 1 && s[0] in chars {
      assert Escaped(s, chars) == ['\\', s[0]] && ['\\', s[0]][2..] == [];
      assert Unescaped(Escaped(s, chars)) == [s[0]];
      assert Unescaped(s) == [s[0]];
    }
  }

  /** How many special characters have no escaping backslash before them. */
  function Bare(s: string, chars: string): nat {
    if s == [] then 0
    else if s[0] == '\\' then if |s| == 1 then 0 else Bare(s[2..], chars)
    else (if s[0] in chars then 1 else 0) + Bare(s[1..], chars)
  }

  lemma {:induction false} RewrittenLength(s: string, chars: string)
    ensures |Rewritten(s, chars)| == |s| + Bare(s, chars) + if Dangling(s) then 1 else 0
  {
    if s != [] {
      if s[0] == '\\' && |s| > 1 {
        RewrittenLength(s[2..], chars);
      } else if s[0] != '\\' {
        RewrittenLength(s[1..], chars);
      }
    }
  }

  /** One backslash is added for each bare special character; a dangling backslash brings one more character. */
  lemma EscapeAddsOneEach(s: string, chars: string)
    requires '\\' !in chars
    ensures |Escaped(s, chars)| == |s| + Bare(s, chars) + if LoopRuns(s, chars) && Dangling(s) then 1 else 0
  {
    RewrittenLength(s, chars);
    if !HasSpecial(s, chars) {
      NothingBare(s, chars);
    } else if |s| == 1 {
      var c :| c in s && c in chars;
      assert s[0] == c && Bare(s[1..], chars) == 0;
    }
  }

  lemma {:induction false} NothingBare(s: string, chars: string)
    requires forall c :: c in s ==> c !in chars
    ensures Bare(s, chars) == 0
  {
    if s != [] {
      if s[0] == '\\' && |s| > 1 {
        NothingBare(s[2..], chars);
      } else if s[0] != '\\' {
        NothingBare(s[1..], chars);
      }
    }
  }

  /** Nothing changes without special characters, nor, beyond one character, with the backslash among them. */
  lemma LeftAlone(s: string, chars: string)
    ensures (forall c :: c in s ==> c !in chars) || ('\\' in chars && |s| != 1) ==> Escaped(s, chars) == s
  {
  }

  /** A percent sign and a lone backslash: reading the escaped text gives a NUL where the backslash was. */
  lemma DanglingBackslashLost()
    ensures Escaped("%\\", "_%") == ['\\', '%', '\\', NUL]
    ensures Unescaped("%\\") == "%\\" && Unescaped(Escaped("%\\", "_%")) == ['%', NUL]
  {
    var s := "%\\";
    assert s[0] in s && s[1..] == "\\" && "\\"[1..] == "";
    assert Rewritten("\\", "_%") == ['\\', NUL];
    var out := ['\\', '%', '\\', NUL];
    assert Rewritten(s, "_%") == ['\\', '%'] + ['\\', NUL] == out;
    assert out[2..] == ['\\', NUL] && ['\\', NUL][2..] == [];
    assert Unescaped(['\\', NUL]) == [NUL];
  }
}
