/**
  `addForbiddenDomainRegex` turns a filter line into a Java regular
  expression by replacing every `*` with `.*`; a domain is blocked by it when
  `domain.matches(regex)`, a match of the WHOLE domain.

  The matcher here covers the fragment of Java regular expressions those
  patterns use when the line holds no other metacharacter: literal chars,
  `.` (any char but a line terminator) and `.*`.
 */
module Patterns {

  // ------------------------------------------------------------ compiler

  /** How many times `c` occurs in `s`. */
  function Count(s: string, c: char): nat {
    if s == [] then 0 else (if s[0] == c then 1 else 0) + Count(s[1..], c)
  }

  /** `domainRegex.replace("*", ".*")`. */
  function Compile(line: string): (regex: string)
    ensures |regex| == |line| + Count(line, '*')
    ensures forall i :: 0 <= i < |regex| && regex[i] == '*' ==> 0 < i && regex[i - 1] == '.'
  {
    if line == [] then []
    else (if line[0] == '*' then ".*" else [line[0]]) + Compile(line[1..])
  }

  /** Deletes the char in front of every `*`: undoes `Compile`. */
  function Uncompile(regex: string): string {
    if regex == [] then []
    else if |regex| >= 2 && regex[1] == '*' then "*" + Uncompile(regex[2..])
    else [regex[0]] + Uncompile(regex[1..])
  }

  /** Deleting the char before every `*` of a compiled line gives the line back. */
  lemma {:induction false} UncompileCompile(line: string)
    ensures Uncompile(Compile(line)) == line
  {
    if line != [] {
      UncompileCompile(line[1..]);
      var rest := Compile(line[1..]);
      var regex := Compile(line);
      assert regex[|regex| - |rest|..] == rest;
      assert [line[0]] + line[1..] == line;
    }
  }

  /** Two lines that compile to the same regex are the same line. */
  lemma CompileInjective(a: string, b: string)
    requires Compile(a) == Compile(b)
    ensures a == b
  {
    UncompileCompile(a);
    UncompileCompile(b);
  }

  // -------------------------------------------------------------- tokens

  /** One element of a compiled pattern. */
  datatype Token = Lit(c: char) | AnyChar | AnyStar

  /** Chars with a special meaning in a Java regex other than `.` and `*`;
      a line holding one of them is outside the modelled fragment. */
  predicate IsMeta(c: char) {
    || c == '\\' || c == '^' || c == '$' || c == '|' || c == '?' || c == '+'
    || c == '(' || c == ')' || c == '[' || c == ']' || c == '{' || c == '}'
  }

  predicate InFragmentLine(line: string) {
    forall i :: 0 <= i < |line| ==> !IsMeta(line[i])
  }

  /** A regex in the fragment: no other metacharacter, and every `*`
      quantifies a `.` right before it. */
  predicate InFragment(regex: string) {
    forall i {:trigger regex[i]} :: 0 <= i < |regex| ==>
      !IsMeta(regex[i]) && (regex[i] == '*' ==> 0 < i && regex[i - 1] == '.')
  }

  /** How the Java regex parser reads a regex of the fragment. */
  function Tokenize(regex: string): (toks: seq<Token>)
    ensures |toks| <= |regex|
    ensures '*' !in regex ==> |toks| == |regex| && AnyStar !in toks
    ensures Lit('.') !in toks
    ensures InFragment(regex) ==> Lit('*') !in toks
  {
    if regex == [] then []
    else if regex[0] == '.' && |regex| >= 2 && regex[1] == '*' then
      assert InFragment(regex) ==> |regex| == 2 || regex[2] != '*';
      [AnyStar] + Tokenize(regex[2..])
    else if regex[0] == '.' then
      assert InFragment(regex) ==> |regex| == 1 || regex[1] != '*';
      [AnyChar] + Tokenize(regex[1..])
    else
      assert InFragment(regex) ==> regex[0] != '*' && (|regex| == 1 || regex[1] != '*');
      [Lit(regex[0])] + Tokenize(regex[1..])
  }

  /** What the filter line means, read directly: `*` any run of chars, `.`
      any char, anything else itself. */
  function LineTokens(line: string): (toks: seq<Token>)
    ensures |toks| == |line|
    ensures forall i :: 0 <= i < |line| ==> (toks[i] == AnyStar <==> line[i] == '*')
  {
    if line == [] then []
    else
      var t := if line[0] == '*' then AnyStar else if line[0] == '.' then AnyChar else Lit(line[0]);
      [t] + LineTokens(line[1..])
  }

  /** The compiled regex means exactly what the line says. */
  lemma {:induction false} CompileMeaning(line: string)
    ensures Tokenize(Compile(line)) == LineTokens(line)
  {
    if line != [] {
      CompileMeaning(line[1..]);
      var rest := Compile(line[1..]);
      if line[0] == '*' {
        assert Compile(line) == ".*" + rest;
        assert (".*" + rest)[2..] == rest;
      } else if line[0] == '.' {
        assert Compile(line) == "." + rest;
        assert ("." + rest)[1..] == rest;
      } else {
        assert Compile(line) == [line[0]] + rest;
        assert ([line[0]] + rest)[1..] == rest;
      }
    }
  }

  /** A compiled line is in the fragment exactly when the line holds no
      other regex metacharacter. */
  lemma CompileInFragment(line: string)
    ensures InFragment(Compile(line)) <==> InFragmentLine(line)
  {
    var regex := Compile(line);
    if InFragmentLine(line) {
      forall i | 0 <= i < |regex|
        ensures !IsMeta(regex[i])
      {
        CompiledCharsFromLine(line, i);
      }
    } else {
      var j :| 0 <= j < |line| && IsMeta(line[j]);
      CompiledKeepsChar(line, j);
    }
  }

  /** Every char of a compiled line is a char of the line or the inserted dot. */
  lemma {:induction false} CompiledCharsFromLine(line: string, i: int)
    requires 0 <= i < |Compile(line)|
    ensures Compile(line)[i] == '.' || Compile(line)[i] in line
  {
    if line != [] {
      var head := if line[0] == '*' then ".*" else [line[0]];
      if i >= |head| {
        CompiledCharsFromLine(line[1..], i - |head|);
      }
    }
  }

  /** Every char of the line other than `*` survives compilation. */
  lemma {:induction false} CompiledKeepsChar(line: string, j: int)
    requires 0 <= j < |line| && line[j] != '*'
    ensures line[j] in Compile(line)
  {
    var head := if line[0] == '*' then ".*" else [line[0]];
    if j > 0 {
      CompiledKeepsChar(line[1..], j - 1);
      assert Compile(line) == head + Compile(line[1..]);
    } else {
      assert Compile(line)[0] == line[0];
    }
  }

  // ------------------------------------------------------------- matcher

  /** The chars a Java `.` does not match (no DOTALL flag). */
  predicate LineTerminator(c: char) {
    c == '\n' || c == '\r' || c == '\U{0085}' || c == '\U{2028}' || c == '\U{2029}'
  }

  /** Whether `toks` matches ALL of `s`, as `String.matches` asks. */
  function Matches(toks: seq<Token>, s: string): (r: bool)
    ensures r && AnyStar !in toks ==> |s| == |toks|
    ensures toks == [AnyStar] ==> (r <==> forall k :: 0 <= k < |s| ==> !LineTerminator(s[k]))
    decreases |toks|, |s|
  {
    if toks == [] then s == []
    else match toks[0]
      case Lit(c) => s != [] && s[0] == c && Matches(toks[1..], s[1..])
      case AnyChar => s != [] && !LineTerminator(s[0]) && Matches(toks[1..], s[1..])
      case AnyStar =>
        Matches(toks[1..], s) || (s != [] && !LineTerminator(s[0]) && Matches(toks, s[1..]))
  }

  /** `domain.matches(regex)` for a regex of the fragment. */
  function FullMatch(regex: string, domain: string): (r: bool)
    requires InFragment(regex)
    ensures r && '*' !in regex ==> |domain| == |regex|
    ensures regex == ".*" ==> (r <==> forall k :: 0 <= k < |domain| ==> !LineTerminator(domain[k]))
  {
    assert Tokenize(".*") == [AnyStar];
    Matches(Tokenize(regex), domain)
  }

  /** One pattern char against one domain char: `.` takes any char but a
      line terminator, anything else only itself. */
  predicate CharMatches(p: char, c: char) {
    if p == '.' then !LineTerminator(c) else p == c
  }

  /** A line without `*` matches exactly the domains of its length that
      agree with it char by char. */
  lemma {:induction false} StarFreeMatch(line: string, s: string)
    requires '*' !in line
    ensures Matches(LineTokens(line), s)
        <==> |s| == |line| && forall i :: 0 <= i < |s| ==> CharMatches(line[i], s[i])
  {
    if line != [] && s != [] {
      StarFreeMatch(line[1..], s[1..]);
      assert LineTokens(line)[1..] == LineTokens(line[1..]);
      if |s| == |line| && forall i :: 1 <= i < |s| ==> CharMatches(line[i], s[i]) {
        assert forall i :: 0 <= i < |s| - 1 ==> CharMatches(line[1..][i], s[1..][i]);
      }
    } else if line != [] {
      assert LineTokens(line)[0] != AnyStar;
    }
  }

  /** A line `*` followed by a star-free suffix matches the domains that end
      with a match of the suffix, after a prefix free of line terminators. */
  lemma {:induction false} LeadingStarMatch(suffix: string, s: string)
    requires '*' !in suffix
    ensures Matches(LineTokens("*" + suffix), s)
        <==> |s| >= |suffix|
             && (forall i :: 0 <= i < |s| - |suffix| ==> !LineTerminator(s[i]))
             && Matches(LineTokens(suffix), s[|s| - |suffix|..])
    decreases |s|
  {
    var toks := LineTokens("*" + suffix);
    var n := |suffix|;
    assert ("*" + suffix)[1..] == suffix;
    assert toks[1..] == LineTokens(suffix);
    StarFreeMatch(suffix, s);
    if |s| == n {
      assert s[|s| - n..] == s;
      if s != [] {
        LeadingStarMatch(suffix, s[1..]);
      }
    } else if |s| > n {
      LeadingStarMatch(suffix, s[1..]);
      assert s[1..][|s| - 1 - n..] == s[|s| - n..];
      assert (forall i :: 0 <= i < |s| - n ==> !LineTerminator(s[i]))
          <==> !LineTerminator(s[0]) && forall i :: 0 <= i < |s| - 1 - n ==> !LineTerminator(s[1..][i]);
    } else if s != [] {
      LeadingStarMatch(suffix, s[1..]);
    }
  }

  /** A leading `*` takes any prefix free of line terminators. */
  lemma SubdomainMatches(suffix: string, sub: string)
    requires '*' !in suffix
    requires forall i :: 0 <= i < |sub| ==> !LineTerminator(sub[i])
    ensures Matches(LineTokens("*" + suffix), sub + suffix)
  {
    var s := sub + suffix;
    assert s[|s| - |suffix|..] == suffix;
    assert forall i :: 0 <= i < |s| - |suffix| ==> s[i] == sub[i];
    StarFreeMatchesItself(suffix);
    LeadingStarMatch(suffix, s);
  }

  /** A domain shorter than the fixed part of the line never matches. */
  lemma ShorterNoMatch(suffix: string, s: string)
    requires '*' !in suffix
    requires |s| < |suffix|
    ensures !Matches(LineTokens("*" + suffix), s)
  {
    LeadingStarMatch(suffix, s);
  }

  /** For a line in the fragment, the compiled regex matches a domain
      exactly when the line's own reading does. */
  lemma CompiledMatchesLine(line: string, domain: string)
    requires InFragmentLine(line)
    ensures InFragment(Compile(line))
    ensures FullMatch(Compile(line), domain) <==> Matches(LineTokens(line), domain)
  {
    CompileInFragment(line);
    CompileMeaning(line);
  }

  /** The wildcard example: `*.example.com` blocks every proper subdomain of
      `example.com` but not `example.com` itself. */
  lemma WildcardSubdomains()
    ensures InFragment(Compile("*.example.com"))
    ensures FullMatch(Compile("*.example.com"), "foo.example.com")
    ensures FullMatch(Compile("*.example.com"), "a.b.example.com")
    ensures !FullMatch(Compile("*.example.com"), "example.com")
  {
    WildcardInFragment();
    CompileMeaning("*.example.com");
    WildcardLineMatches();
  }

  lemma WildcardInFragment()
    ensures InFragment(Compile("*.example.com"))
  {
    WildcardLineInFragment();
    CompileInFragment("*.example.com");
  }

  lemma WildcardLineInFragment()
    ensures InFragmentLine("*.example.com")
  {
  }

  lemma WildcardLineMatches()
    ensures Matches(LineTokens("*.example.com"), "foo.example.com")
    ensures Matches(LineTokens("*.example.com"), "a.b.example.com")
    ensures !Matches(LineTokens("*.example.com"), "example.com")
  {
    WildcardMatchesChild();
    WildcardMatchesGrandchild();
    WildcardRejectsApex();
  }

  lemma WildcardMatchesChild()
    ensures Matches(LineTokens("*.example.com"), "foo.example.com")
  {
    assert "*.example.com" == "*" + ".example.com";
    assert "foo.example.com" == "foo" + ".example.com";
    SubdomainMatches(".example.com", "foo");
  }

  lemma WildcardMatchesGrandchild()
    ensures Matches(LineTokens("*.example.com"), "a.b.example.com")
  {
    assert "*.example.com" == "*" + ".example.com";
    assert "a.b.example.com" == "a.b" + ".example.com";
    SubdomainMatches(".example.com", "a.b");
  }

  lemma WildcardRejectsApex()
    ensures !Matches(LineTokens("*.example.com"), "example.com")
  {
    assert "*.example.com" == "*" + ".example.com";
    ShorterNoMatch(".example.com", "example.com");
  }

  /** A `.` in a filter line is a regex dot: `example.com` also blocks
      `exampleXcom`, while `other.com` is not blocked by it. */
  lemma DotMatchesAnyChar()
    ensures InFragment(Compile("example.com"))
    ensures FullMatch(Compile("example.com"), "exampleXcom")
    ensures FullMatch(Compile("example.com"), "example.com")
    ensures !FullMatch(Compile("example.com"), "other.com")
  {
    PlainInFragment();
    CompileMeaning("example.com");
    PlainLineMatches();
  }

  lemma PlainInFragment()
    ensures InFragment(Compile("example.com"))
  {
    PlainLineInFragment();
    CompileInFragment("example.com");
  }

  lemma PlainLineInFragment()
    ensures InFragmentLine("example.com")
  {
  }

  lemma PlainLineMatches()
    ensures Matches(LineTokens("example.com"), "exampleXcom")
    ensures Matches(LineTokens("example.com"), "example.com")
    ensures !Matches(LineTokens("example.com"), "other.com")
  {
    PlainMatchesDotted();
    PlainMatchesItself();
    PlainRejectsOther();
  }

  lemma PlainMatchesDotted()
    ensures Matches(LineTokens("example.com"), "exampleXcom")
  {
    DotTakesOneChar("example.com", "exampleXcom", 7);
  }

  lemma PlainMatchesItself()
    ensures Matches(LineTokens("example.com"), "example.com")
  {
    PlainStarFree();
    StarFreeMatchesItself("example.com");
  }

  lemma PlainStarFree()
    ensures '*' !in "example.com"
  {
  }

  /** A star-free line matches itself. */
  lemma StarFreeMatchesItself(line: string)
    requires '*' !in line
    ensures Matches(LineTokens(line), line)
  {
    StarFreeMatch(line, line);
  }

  /** A star-free line matches a domain that differs from it only where the
      line has a `.`. */
  lemma DotTakesOneChar(line: string, domain: string, k: nat)
    requires '*' !in line && |line| == |domain| && k < |domain|
    requires line[k] == '.' && !LineTerminator(domain[k])
    requires forall i :: 0 <= i < |domain| && i != k ==> line[i] == domain[i]
    ensures Matches(LineTokens(line), domain)
  {
    StarFreeMatch(line, domain);
    assert forall i :: 0 <= i < |domain| ==> CharMatches(line[i], domain[i]);
  }

  lemma PlainRejectsOther()
    ensures !Matches(LineTokens("example.com"), "other.com")
  {
    StarFreeMatch("example.com", "other.com");
  }
}
