/**
  The forbidden-domain list of `DnsServer`: an insertion-ordered list of
  compiled patterns, cleared by `clearForbiddenDomainRegex`, extended by
  `addForbiddenDomainRegex` and by loading a filter file, and consulted with
  `anyMatch` on every query.

  Loading reads the file's lines, cleans them (`cleanFilters`), replaces
  every `include` line by the cleaned lines of its target, and compiles
  what results. The target is resolved by `getIncludeFilterFile`, whose
  file system and HTTP access are parameters here.
 */
module FilterList {
  import opened Base
  import opened JavaStrings
  import opened Patterns

  /** The compiled patterns, oldest first. */
  type Filters = seq<string>

  // ------------------------------------------------------------- cleaning

  /** What survives cleaning: a non-empty line with no `#` and nothing for
      `trim` to strip at either end. */
  predicate IsClean(line: string) {
    line != [] && '#' !in line && TrimmedEnds(line)
  }

  /** One line of `cleanFilters`: cut at the first `#`, then trimmed. */
  function CleanLine(line: string): (r: string)
    ensures '#' !in r && TrimmedEnds(r)
  {
    Trim(CutComment(line))
  }

  /** A clean line is left alone by cleaning. */
  lemma CleanLineFixesClean(line: string)
    requires '#' !in line && TrimmedEnds(line)
    ensures CleanLine(line) == line
  {
    TrimFixesTrimmed(line);
  }

  /** A `map` step over the lines, in order. */
  function MapLines(lines: seq<string>, f: string -> string): (r: seq<string>)
    ensures |r| == |lines|
    ensures forall k :: 0 <= k < |lines| ==> r[k] == f(lines[k])
  {
    seq(|lines|, k requires 0 <= k < |lines| => f(lines[k]))
  }

  lemma MapLinesAppend(a: seq<string>, b: seq<string>, f: string -> string)
    ensures MapLines(a + b, f) == MapLines(a, f) + MapLines(b, f)
  {
    assert forall k :: 0 <= k < |a| ==> (a + b)[k] == a[k];
    assert forall k :: |a| <= k < |a| + |b| ==> (a + b)[k] == b[k - |a|];
  }

  /** The final `filter(l -> !l.isEmpty())`: drops the empty lines, keeps
      the others in order. */
  function DropEmpty(ls: seq<string>): (r: seq<string>)
    ensures |r| <= |ls|
    ensures forall k :: 0 <= k < |r| ==> r[k] != [] && r[k] in ls
  {
    if ls == [] then []
    else if ls[0] == [] then DropEmpty(ls[1..])
    else [ls[0]] + DropEmpty(ls[1..])
  }

  /** `cleanFilters`: every line cleaned, the empty results dropped, the
      order kept. */
  function CleanFilters(lines: seq<string>): (r: seq<string>)
    ensures |r| <= |lines|
    ensures forall k :: 0 <= k < |r| ==> IsClean(r[k])
  {
    var cleaned := MapLines(lines, CleanLine);
    var r := DropEmpty(cleaned);
    assert forall k :: 0 <= k < |r| ==> r[k] in cleaned;
    r
  }

  lemma {:induction false} DropEmptyAppend(a: seq<string>, b: seq<string>)
    ensures DropEmpty(a + b) == DropEmpty(a) + DropEmpty(b)
  {
    if a != [] {
      assert (a + b)[0] == a[0];
      assert (a + b)[1..] == a[1..] + b;
      DropEmptyAppend(a[1..], b);
      if a[0] != [] {
        assert [a[0]] + (DropEmpty(a[1..]) + DropEmpty(b)) == ([a[0]] + DropEmpty(a[1..])) + DropEmpty(b);
      }
    } else {
      assert a + b == b;
    }
  }

  /** A list with no empty line is left alone. */
  lemma {:induction false} DropEmptyKeepsNonEmpty(ls: seq<string>)
    requires forall k :: 0 <= k < |ls| ==> ls[k] != []
    ensures DropEmpty(ls) == ls
  {
    if ls != [] {
      DropEmptyKeepsNonEmpty(ls[1..]);
      assert ls == [ls[0]] + ls[1..];
    }
  }

  /** A line survives the filter exactly when it is non-empty and present. */
  lemma {:induction false} DropEmptyMembers(ls: seq<string>, x: string)
    ensures x in DropEmpty(ls) <==> x != [] && x in ls
  {
    if ls != [] {
      DropEmptyMembers(ls[1..], x);
      assert ls == [ls[0]] + ls[1..];
    }
  }

  /** Cleaning works line by line: it distributes over concatenation. */
  lemma CleanFiltersAppend(a: seq<string>, b: seq<string>)
    ensures CleanFilters(a + b) == CleanFilters(a) + CleanFilters(b)
  {
    MapLinesAppend(a, b, CleanLine);
    DropEmptyAppend(MapLines(a, CleanLine), MapLines(b, CleanLine));
  }

  /** Cleaning one line gives that line cleaned, unless it cleans to nothing. */
  lemma CleanFiltersSingle(line: string)
    ensures CleanFilters([line]) == if CleanLine(line) == [] then [] else [CleanLine(line)]
  {
    assert MapLines([line], CleanLine) == [CleanLine(line)];
    assert [CleanLine(line)][1..] == [];
  }

  /** The cleaned lines are exactly the non-empty cleanings of input lines. */
  lemma CleanFiltersMembers(lines: seq<string>, x: string)
    ensures x in CleanFilters(lines) <==> x != [] && exists l :: l in lines && CleanLine(l) == x
  {
    var cleaned := MapLines(lines, CleanLine);
    DropEmptyMembers(cleaned, x);
    if exists l :: l in lines && CleanLine(l) == x {
      var l :| l in lines && CleanLine(l) == x;
      var k :| 0 <= k < |lines| && lines[k] == l;
      assert cleaned[k] == x;
    }
  }

  /** Cleaning twice is cleaning once. */
  lemma CleanFiltersIdempotent(lines: seq<string>)
    ensures CleanFilters(CleanFilters(lines)) == CleanFilters(lines)
  {
    var once := CleanFilters(lines);
    forall k | 0 <= k < |once|
      ensures CleanLine(once[k]) == once[k]
    {
      CleanLineFixesClean(once[k]);
    }
    assert MapLines(once, CleanLine) == once;
    DropEmptyKeepsNonEmpty(once);
  }

  // ------------------------------------------------------------- includes

  /** A cleaned line is an include directive when its lower-case form
      starts with `include`; no separator has to follow the keyword. */
  function IsInclude(line: string): (r: bool)
    ensures r <==> |line| >= 7 && forall i :: 0 <= i < 7 ==> LowerChar(line[i]) == "include"[i]
  {
    StartsWith(ToLower(line), "include")
  }

  /** `l.substring("include".length()).trim()`: what follows the keyword. */
  function IncludeTarget(line: string): (t: string)
    requires IsInclude(line)
    ensures |t| <= |line| - 7 && TrimmedEnds(t)
    ensures forall i :: 0 <= i < |t| ==> t[i] in line[7..]
  {
    Trim(line[|"include"|..])
  }

  /** The keyword needs no separator and is read case-insensitively:
      `includefoo`, `INCLUDE foo` and `Include foo` all include. */
  lemma IncludeKeyword(keyword: string, t: string)
    requires |keyword| == 7 && ToLower(keyword) == "include"
    ensures IsInclude(keyword + t) && IncludeTarget(keyword + t) == Trim(t)
  {
    var line := keyword + t;
    forall i | 0 <= i < 7
      ensures LowerChar(line[i]) == "include"[i]
    {
      assert line[i] == keyword[i];
      assert ToLower(keyword)[i] == LowerChar(keyword[i]);
    }
    assert line[7..] == t;
  }

  /** The file system and network seen by `getIncludeFilterFile`: whether
      `File.exists()` holds for a path (true for a directory as well, whose
      read then fails and falls through to HTTP), what reading it yields,
      and what an HTTP POST to the target as a URL yields. */
  datatype IncludeSources = IncludeSources(
    fileExists: string -> bool,
    readFile: string -> Result<seq<string>, IoError>,
    post: string -> Result<seq<string>, IoError>)

  /** `getIncludeFilterFile`: the lines of a local file when it exists and
      reads, else the lines of the HTTP response; it never fails, since any
      failure yields no lines. */
  function GetIncludeFilterFile(src: IncludeSources, target: string): (lines: seq<string>)
    ensures src.fileExists(target) && src.readFile(target).Ok? ==> lines == src.readFile(target).value
    ensures !(src.fileExists(target) && src.readFile(target).Ok?) && src.post(target).Ok? ==>
              lines == src.post(target).value
    ensures !(src.fileExists(target) && src.readFile(target).Ok?) && src.post(target).Err? ==> lines == []
  {
    var local := if src.fileExists(target) then src.readFile(target) else Err(IoFailure);
    if local.Ok? then local.value
    else
      match src.post(target)
      case Ok(lines) => lines
      case Err(_) => []
  }

  /** `getIncludeFilterFile` as the function the loader calls. */
  function Resolver(src: IncludeSources): string -> seq<string> {
    target => GetIncludeFilterFile(src, target)
  }

  /** The `flatMap` step for one cleaned line: an include becomes the cleaned
      lines of its target (which are not examined for includes again);
      any other line stands for itself. */
  function ExpandLine(line: string, resolve: string -> seq<string>): (r: seq<string>)
    ensures IsInclude(line) ==> forall k :: 0 <= k < |r| ==> IsClean(r[k])
    ensures IsInclude(line) ==> forall x :: x in r <==>
              x != [] && exists l :: l in resolve(IncludeTarget(line)) && CleanLine(l) == x
    ensures !IsInclude(line) ==> r == [line]
  {
    if IsInclude(line) then
      var ls := resolve(IncludeTarget(line));
      assert forall x :: x in CleanFilters(ls) <==> x != [] && exists l :: l in ls && CleanLine(l) == x by {
        forall x
          ensures x in CleanFilters(ls) <==> x != [] && exists l :: l in ls && CleanLine(l) == x
        {
          CleanFiltersMembers(ls, x);
        }
      }
      CleanFilters(ls)
    else [line]
  }

  /** The `flatMap` over all cleaned lines, in order. */
  function Expand(lines: seq<string>, resolve: string -> seq<string>): (r: seq<string>)
    ensures (forall k :: 0 <= k < |lines| ==> IsClean(lines[k])) ==>
              forall k :: 0 <= k < |r| ==> IsClean(r[k])
  {
    if lines == [] then [] else ExpandLine(lines[0], resolve) + Expand(lines[1..], resolve)
  }

  lemma {:induction false} ExpandAppend(a: seq<string>, b: seq<string>, resolve: string -> seq<string>)
    ensures Expand(a + b, resolve) == Expand(a, resolve) + Expand(b, resolve)
  {
    if a != [] {
      assert (a + b)[1..] == a[1..] + b;
      ExpandAppend(a[1..], b, resolve);
    } else {
      assert a + b == b;
    }
  }

  // ------------------------------------------------------- list operations

  /** `clearForbiddenDomainRegex`. */
  function Clear(): (fs: Filters)
    ensures |fs| == 0
  {
    []
  }

  /** `addForbiddenDomainRegex`: the compiled line goes to the end. */
  function AddPattern(fs: Filters, line: string): (r: Filters)
    ensures |r| == |fs| + 1 && r[..|fs|] == fs
    ensures Uncompile(r[|fs|]) == line
    ensures Tokenize(r[|fs|]) == LineTokens(line)
  {
    UncompileCompile(line);
    CompileMeaning(line);
    fs + [Compile(line)]
  }

  /** `forEach(this::addForbiddenDomainRegex)`: each line compiled and
      appended, in order. */
  function AddAll(fs: Filters, lines: seq<string>): (r: Filters)
    ensures |r| == |fs| + |lines| && r[..|fs|] == fs
    ensures forall k :: 0 <= k < |lines| ==> r[|fs| + k] == Compile(lines[k])
    decreases |lines|
  {
    if lines == [] then fs else AddAll(AddPattern(fs, lines[0]), lines[1..])
  }

  /** `addForbiddenDomainRegexFromFile(Path)`: a file that cannot be read
      raises and leaves the list alone; otherwise the patterns the file
      spells out are appended. */
  function LoadFromFile(fs: Filters, file: Result<seq<string>, IoError>,
                        resolve: string -> seq<string>): (r: Result<Filters, IoError>)
    ensures r.Ok? <==> file.Ok?
    ensures r.Ok? ==> |fs| <= |r.value| && r.value[..|fs|] == fs
    ensures r.Ok? ==> forall k :: |fs| <= k < |r.value| ==> exists x :: IsClean(x) && r.value[k] == Compile(x)
  {
    match file
    case Err(e) => Err(e)
    case Ok(lines) =>
      var patterns := Expand(CleanFilters(lines), resolve);
      var r := AddAll(fs, patterns);
      assert forall k :: |fs| <= k < |r| ==> IsClean(patterns[k - |fs|]) && r[k] == Compile(patterns[k - |fs|]);
      Ok(r)
  }

  /** The console's `reload`: clear, then load the same file again. The
      clear happens first, so when the read fails the list stays empty (the
      exception only reaches the console). */
  function Reload(fs: Filters, file: Result<seq<string>, IoError>,
                  resolve: string -> seq<string>): (r: Filters)
    ensures file.Err? ==> r == []
    ensures file.Ok? ==> Ok(r) == LoadFromFile(Clear(), file, resolve)
  {
    match LoadFromFile(Clear(), file, resolve)
    case Ok(loaded) => loaded
    case Err(_) => Clear()
  }

  /** Loading an empty file changes nothing. */
  lemma LoadEmptyFile(fs: Filters, resolve: string -> seq<string>)
    ensures LoadFromFile(fs, Ok([]), resolve) == Ok(fs)
  {
  }

  // ------------------------------------------------------ loading, by parts

  /** Loading a file is loading its first part, then its second part. */
  lemma LoadConcat(fs: Filters, a: seq<string>, b: seq<string>, resolve: string -> seq<string>)
    ensures LoadFromFile(fs, Ok(a + b), resolve)
         == LoadFromFile(LoadFromFile(fs, Ok(a), resolve).value, Ok(b), resolve)
  {
    CleanFiltersAppend(a, b);
    ExpandAppend(CleanFilters(a), CleanFilters(b), resolve);
    AddAllAppend(fs, Expand(CleanFilters(a), resolve), Expand(CleanFilters(b), resolve));
  }

  lemma {:induction false} AddAllAppend(fs: Filters, a: seq<string>, b: seq<string>)
    ensures AddAll(fs, a + b) == AddAll(AddAll(fs, a), b)
    decreases |a|
  {
    if a != [] {
      assert (a + b)[1..] == a[1..] + b;
      AddAllAppend(AddPattern(fs, a[0]), a[1..], b);
    } else {
      assert a + b == b;
    }
  }

  /** A blank or comment-only line adds nothing. */
  lemma LoadBlankLine(fs: Filters, line: string, resolve: string -> seq<string>)
    requires CleanLine(line) == []
    ensures LoadFromFile(fs, Ok([line]), resolve) == Ok(fs)
  {
    CleanFiltersSingle(line);
  }

  /** A pattern line adds its cleaned, compiled form. */
  lemma LoadPatternLine(fs: Filters, line: string, resolve: string -> seq<string>)
    requires CleanLine(line) != [] && !IsInclude(CleanLine(line))
    ensures LoadFromFile(fs, Ok([line]), resolve) == Ok(fs + [Compile(CleanLine(line))])
  {
    var c := CleanLine(line);
    CleanFiltersSingle(line);
    assert [c][1..] == [];
    assert ExpandLine(c, resolve) == [c];
    assert Expand([c], resolve) == [c] + [];
    assert AddAll(fs, [c]) == AddAll(fs + [Compile(c)], []);
  }

  /** An include line adds the compiled, cleaned lines of its target, one
      level deep: a target line that itself reads `include ...` is compiled
      as a pattern like any other. */
  lemma LoadIncludeLine(fs: Filters, line: string, resolve: string -> seq<string>)
    requires CleanLine(line) != [] && IsInclude(CleanLine(line))
    ensures LoadFromFile(fs, Ok([line]), resolve)
         == Ok(AddAll(fs, CleanFilters(resolve(IncludeTarget(CleanLine(line))))))
  {
    var included := CleanFilters(resolve(IncludeTarget(CleanLine(line))));
    CleanFiltersSingle(line);
    assert Expand([CleanLine(line)], resolve) == included + [];
    assert included + [] == included;
  }

  /** An include whose target can be reached neither as a file nor by HTTP
      contributes nothing and raises nothing: the load is the same as if
      the line were absent. */
  lemma UnreachableIncludeIgnored(fs: Filters, before: seq<string>, line: string,
                                  after: seq<string>, src: IncludeSources)
    requires CleanLine(line) != [] && IsInclude(CleanLine(line))
    requires var t := IncludeTarget(CleanLine(line));
      !(src.fileExists(t) && src.readFile(t).Ok?) && src.post(t).Err?
    ensures LoadFromFile(fs, Ok(before + [line] + after), Resolver(src))
         == LoadFromFile(fs, Ok(before + after), Resolver(src))
  {
    var resolve := Resolver(src);
    LoadConcat(fs, before + [line], after, resolve);
    LoadConcat(fs, before, [line], resolve);
    LoadConcat(fs, before, after, resolve);
    var mid := LoadFromFile(fs, Ok(before), resolve).value;
    LoadIncludeLine(mid, line, resolve);
    assert resolve(IncludeTarget(CleanLine(line))) == [];
  }

  /** Reloading does not depend on what the list held before: `Reload`
      clears first and never reads its list argument, so both facts are
      about the clear-then-load sequence, not about any particular list. */
  lemma ReloadForgetsPrevious(a: Filters, b: Filters, file: Result<seq<string>, IoError>,
                              resolve: string -> seq<string>)
    ensures Reload(a, file, resolve) == Reload(b, file, resolve)
    ensures Reload(a, file, resolve) == Reload(Reload(a, file, resolve), file, resolve)
  {
  }
  /** A reload whose read fails leaves a list that blocks nothing (unless
      block-all is on). */
  lemma FailedReloadBlocksNothing(fs: Filters, file: Result<seq<string>, IoError>,
                                  resolve: string -> seq<string>, domain: string)
    requires file.Err?
    ensures !Blocked(false, Reload(fs, file, resolve), domain)
  {
  }


  // -------------------------------------------------------------- matching

  predicate AllInFragment(fs: Filters) {
    forall k :: 0 <= k < |fs| ==> InFragment(fs[k])
  }

  /** `filteredAddrs.stream().anyMatch(domain::matches)`, pattern by pattern
      from the oldest. */
  function AnyMatch(fs: Filters, domain: string): (r: bool)
    requires AllInFragment(fs)
    ensures r <==> exists k :: 0 <= k < |fs| && FullMatch(fs[k], domain)
  {
    if fs == [] then false
    else FullMatch(fs[0], domain) || AnyMatch(fs[1..], domain)
  }

  /** The classification of `run()`: `blockAll || anyMatch`. The `||`
      short-circuits, so with block-all on no pattern is evaluated and the
      list may hold any regex at all. */
  function Blocked(blockAll: bool, fs: Filters, domain: string): (r: bool)
    requires blockAll || AllInFragment(fs)
    ensures blockAll ==> r
    ensures !blockAll ==> (r <==> exists k :: 0 <= k < |fs| && FullMatch(fs[k], domain))
  {
    blockAll || AnyMatch(fs, domain)
  }

  /** Block-all blocks everything; without it an empty list blocks nothing. */
  lemma BlockAllAndEmpty(fs: Filters, domain: string)
    ensures Blocked(true, fs, domain)
    ensures !Blocked(false, Clear(), domain)
  {
  }

  /** Adding patterns never unblocks a domain. */
  lemma AddAllKeepsBlocked(blockAll: bool, fs: Filters, lines: seq<string>, domain: string)
    requires blockAll || (AllInFragment(fs) && AllInFragment(AddAll(fs, lines)))
    requires Blocked(blockAll, fs, domain)
    ensures Blocked(blockAll, AddAll(fs, lines), domain)
  {
    if !blockAll {
      var k :| 0 <= k < |fs| && FullMatch(fs[k], domain);
      var r := AddAll(fs, lines);
      assert r[k] == r[..|fs|][k];
    }
  }

  /** Loading never unblocks a domain. */
  lemma LoadKeepsBlocked(blockAll: bool, fs: Filters, file: Result<seq<string>, IoError>,
                         resolve: string -> seq<string>, domain: string)
    requires file.Ok?
    requires blockAll || (AllInFragment(fs) && AllInFragment(LoadFromFile(fs, file, resolve).value))
    requires Blocked(blockAll, fs, domain)
    ensures Blocked(blockAll, LoadFromFile(fs, file, resolve).value, domain)
  {
    AddAllKeepsBlocked(blockAll, fs, Expand(CleanFilters(file.value), resolve), domain);
  }

  /** Lines free of regex metacharacters (other than `.` and `*`) give a
      list the matcher covers. */
  lemma AddAllInFragment(fs: Filters, lines: seq<string>)
    requires AllInFragment(fs)
    requires forall k :: 0 <= k < |lines| ==> InFragmentLine(lines[k])
    ensures AllInFragment(AddAll(fs, lines))
  {
    var r := AddAll(fs, lines);
    forall k | 0 <= k < |r|
      ensures InFragment(r[k])
    {
      if k >= |fs| {
        CompileInFragment(lines[k - |fs|]);
      } else {
        assert r[k] == r[..|fs|][k];
      }
    }
  }

  /** Loading a file extends what loading any prefix of it gives. */
  lemma LoadExtendsPrefix(fs: Filters, lines: seq<string>, resolve: string -> seq<string>, n: nat)
    requires n <= |lines|
    ensures var part := LoadFromFile(fs, Ok(lines[..n]), resolve).value;
      var whole := LoadFromFile(fs, Ok(lines), resolve).value;
      |part| <= |whole| && whole[..|part|] == part
  {
    assert lines == lines[..n] + lines[n..];
    LoadConcat(fs, lines[..n], lines[n..], resolve);
  }

  /** A pattern that matches makes `anyMatch` true. */
  lemma MatchingPatternBlocks(fs: Filters, k: nat, domain: string)
    requires AllInFragment(fs) && k < |fs|
    requires FullMatch(fs[k], domain)
    ensures Blocked(false, fs, domain)
  {
  }

  /** A pattern line of a loaded file has its compiled form in the list. */
  lemma LoadedLinePosition(fs: Filters, before: seq<string>, line: string, after: seq<string>,
                            resolve: string -> seq<string>)
    returns (k: nat)
    requires CleanLine(line) != [] && !IsInclude(CleanLine(line))
    ensures var whole := LoadFromFile(fs, Ok(before + [line] + after), resolve).value;
      k < |whole| && whole[k] == Compile(CleanLine(line))
  {
    LoadAppendPatternLine(fs, before, line, resolve);
    LoadConcat(fs, before + [line], after, resolve);
    var part := LoadFromFile(fs, Ok(before + [line]), resolve).value;
    k := |part| - 1;
    var whole := LoadFromFile(part, Ok(after), resolve).value;
    assert whole[..|part|] == part;
    assert whole[k] == whole[..|part|][k];
  }

  /** A pattern line after some lines appends its compiled form to what
      those lines load. */
  lemma LoadAppendPatternLine(fs: Filters, before: seq<string>, line: string, resolve: string -> seq<string>)
    requires CleanLine(line) != [] && !IsInclude(CleanLine(line))
    ensures LoadFromFile(fs, Ok(before + [line]), resolve).value
         == LoadFromFile(fs, Ok(before), resolve).value + [Compile(CleanLine(line))]
  {
    LoadConcat(fs, before, [line], resolve);
    LoadPatternLine(LoadFromFile(fs, Ok(before), resolve).value, line, resolve);
  }

  /** Every pattern line of a loaded file, taken literally, is blocked once
      the file is loaded (when it has no `*` and stays inside the matcher's
      regex fragment). */
  lemma LoadedLineBlocksItself(fs: Filters, before: seq<string>, line: string, after: seq<string>,
                                resolve: string -> seq<string>)
    requires CleanLine(line) != [] && !IsInclude(CleanLine(line))
    requires InFragmentLine(CleanLine(line)) && '*' !in CleanLine(line)
    requires AllInFragment(LoadFromFile(fs, Ok(before + [line] + after), resolve).value)
    ensures Blocked(false, LoadFromFile(fs, Ok(before + [line] + after), resolve).value, CleanLine(line))
  {
    var c := CleanLine(line);
    var whole := LoadFromFile(fs, Ok(before + [line] + after), resolve).value;
    var k := LoadedLinePosition(fs, before, line, after, resolve);
    CompiledMatchesLine(c, c);
    StarFreeMatchesItself(c);
    MatchingPatternBlocks(whole, k, c);
  }
}
