/**
 * The shader-source rewriting of gl/gl-shader-monitor.hpp: `#version` hoisting, `#include`
 * expansion with `#line` markers and `#define` prefixes.
 *
 * File reading (`read_file_text`) and the include regex are parameters: `read` gives the text
 * of a path, `matchInclude` gives the regex's captured file name of a line, or None when the
 * line is not an include line.
 */
module ShaderPreprocess {
  import opened Wrappers

  ////////////////////////////////////
  // Lines as std::getline splits them

  predicate NoNewline(l: string) { '\n' !in l }

  /** The index of the first newline of `s`, or `|s|` when there is none. */
  function FirstNewline(s: string): (i: nat)
    ensures i <= |s|
    ensures forall k :: 0 <= k < i ==> s[k] != '\n'
    ensures i < |s| ==> s[i] == '\n'
  {
    if s == [] || s[0] == '\n' then 0 else 1 + FirstNewline(s[1..])
  }

  /**
   * The lines `while (std::getline(input, line))` visits: the pieces between newlines, where a
   * final newline does not start another (empty) line.
   */
  function Lines(s: string): (r: seq<string>)
    ensures forall k :: 0 <= k < |r| ==> NoNewline(r[k])
    decreases |s|
  {
    if s == [] then []
    else
      var i := FirstNewline(s);
      if i == |s| then [s] else [s[..i]] + Lines(s[i + 1..])
  }

  /** Each line followed by a newline, as `output << line << std::endl` writes them. */
  function JoinLines(ls: seq<string>): string
  {
    if ls == [] then "" else JoinLines(ls[..|ls| - 1]) + ls[|ls| - 1] + "\n"
  }

  lemma {:induction false} JoinLinesCons(l: string, ls: seq<string>)
    ensures JoinLines([l] + ls) == l + "\n" + JoinLines(ls)
    decreases |ls|
  {
    if ls != [] {
      var front := ls[..|ls| - 1];
      assert ([l] + ls)[..|ls|] == [l] + front;
      JoinLinesCons(l, front);
    }
  }

  lemma {:induction false} JoinLinesSnoc(ls: seq<string>, l: string)
    ensures JoinLines(ls + [l]) == JoinLines(ls) + l + "\n"
  {
    assert (ls + [l])[..|ls|] == ls;
  }

  /** Splitting into lines and writing them back gives the text with a final newline added if it had none. */
  lemma {:induction false} LinesRoundTrip(s: string)
    ensures JoinLines(Lines(s)) == if s == [] || s[|s| - 1] == '\n' then s else s + "\n"
    decreases |s|
  {
    if s != [] {
      var i := FirstNewline(s);
      if i == |s| {
        assert JoinLines([s]) == JoinLines([]) + s + "\n";
      } else {
        var head, rest := s[..i], s[i + 1..];
        assert Lines(s) == [head] + Lines(rest);
        LinesRoundTrip(rest);
        JoinLinesCons(head, Lines(rest));
        SplitAtNewline(s, i);
        if !(rest == [] || rest[|rest| - 1] == '\n') {
          AppendAssoc(head + "\n", rest, "\n");
        }
      }
    }
  }

  /** Splitting a text at one of its newlines: the text ends in a newline iff the part after it is empty or does. */
  lemma SplitAtNewline(s: string, i: nat)
    requires i < |s| && s[i] == '\n'
    ensures s == s[..i] + "\n" + s[i + 1..]
    ensures s[|s| - 1] == '\n' <==> s[i + 1..] == [] || s[i + 1..][|s[i + 1..]| - 1] == '\n'
  {
    assert s == s[..i] + "\n" + s[i + 1..];
  }

  /** Newline-free lines written before a text `t` are split off again, in order, ahead of the lines of `t`. */
  lemma {:induction false} JoinLinesThenLines(ls: seq<string>, t: string)
    requires forall k :: 0 <= k < |ls| ==> NoNewline(ls[k])
    ensures Lines(JoinLines(ls) + t) == ls + Lines(t)
    decreases |ls|
  {
    if ls == [] {
      assert JoinLines(ls) + t == t;
    } else {
      var l, rest := ls[0], ls[1..];
      assert ls == [l] + rest;
      var u := JoinLines(rest) + t;
      JoinLinesCons(l, rest);
      AppendAssoc(l + "\n", JoinLines(rest), t);
      assert JoinLines(ls) + t == l + "\n" + u;
      LinesStep(l, u);
      JoinLinesThenLines(rest, t);
      AppendAssoc([l], rest, Lines(t));
    }
  }

  /** A newline-free line followed by a newline is split off as the first line. */
  lemma LinesStep(l: string, u: string)
    requires NoNewline(l)
    ensures Lines(l + "\n" + u) == [l] + Lines(u)
  {
    var s := l + "\n" + u;
    FirstNewlineAfter(l, u);
    assert s[..|l|] == l;
    assert s[|l| + 1..] == u;
  }

  /** Writing newline-free lines and splitting them again gives the same lines. */
  lemma JoinLinesRoundTrip(ls: seq<string>)
    requires forall k :: 0 <= k < |ls| ==> NoNewline(ls[k])
    ensures Lines(JoinLines(ls)) == ls
  {
    JoinLinesThenLines(ls, "");
    assert JoinLines(ls) + "" == JoinLines(ls);
    assert ls + [] == ls;
  }

  lemma {:induction false} FirstNewlineAfter(l: string, t: string)
    requires NoNewline(l)
    ensures FirstNewline(l + "\n" + t) == |l|
    decreases |l|
  {
    if l != [] {
      assert (l + "\n" + t)[1..] == l[1..] + "\n" + t;
      FirstNewlineAfter(l[1..], t);
    }
  }

  ///////////////////////
  // preprocess_version

  predicate OccursAt(s: string, pat: string, i: nat) {
    i + |pat| <= |s| && s[i..i + |pat|] == pat
  }

  predicate HasSubstring(s: string, pat: string) {
    exists i: nat :: i <= |s| && OccursAt(s, pat, i)
  }

  /** `line.find("#version") != std::string::npos`. */
  predicate HasVersion(line: string) { HasSubstring(line, "#version") }

  /** The last line holding `#version`, or the empty string when there is none. */
  function LastVersionLine(ls: seq<string>): string
  {
    if ls == [] then ""
    else if HasVersion(ls[|ls| - 1]) then ls[|ls| - 1]
    else LastVersionLine(ls[..|ls| - 1])
  }

  /** The lines without `#version`, in their original order. */
  function OtherLines(ls: seq<string>): seq<string>
  {
    if ls == [] then []
    else OtherLines(ls[..|ls| - 1]) + (if HasVersion(ls[|ls| - 1]) then [] else [ls[|ls| - 1]])
  }

  /**
   * The hoisted line is the empty string when no line holds `#version`, and otherwise a line
   * holding `#version` after which no other line does.
   */
  lemma {:induction false} LastVersionLineIsLast(ls: seq<string>)
    ensures var r := LastVersionLine(ls);
      && (r == "" || HasVersion(r))
      && (HasVersion(r) <==> exists k :: 0 <= k < |ls| && HasVersion(ls[k]))
      && (HasVersion(r) ==> exists k :: 0 <= k < |ls| && ls[k] == r && forall j :: k < j < |ls| ==> !HasVersion(ls[j]))
  {
    if ls != [] {
      var front := ls[..|ls| - 1];
      LastVersionLineIsLast(front);
      if !HasVersion(ls[|ls| - 1]) {
        var r := LastVersionLine(front);
        if HasVersion(r) {
          var k :| 0 <= k < |front| && front[k] == r && forall j :: k < j < |front| ==> !HasVersion(front[j]);
          assert ls[k] == r && forall j :: k < j < |ls| ==> !HasVersion(ls[j]);
        }
        if exists k :: 0 <= k < |ls| && HasVersion(ls[k]) {
          var k :| 0 <= k < |ls| && HasVersion(ls[k]);
          assert k < |front| && HasVersion(front[k]);
        }
      }
    }
  }

  /** The other lines are exactly the lines without `#version`. */
  lemma {:induction false} OtherLinesMembers(ls: seq<string>)
    ensures forall l :: l in OtherLines(ls) <==> l in ls && !HasVersion(l)
  {
    if ls != [] {
      var front := ls[..|ls| - 1];
      OtherLinesMembers(front);
      assert ls == front + [ls[|ls| - 1]];
    }
  }

  /** What `preprocess_version(source)` returns. */
  function VersionHoisted(source: string): string {
    var ls := Lines(source);
    LastVersionLine(ls) + "\n" + JoinLines(OtherLines(ls))
  }

  lemma HoistSnoc(ls: seq<string>, l: string)
    ensures LastVersionLine(ls + [l]) == if HasVersion(l) then l else LastVersionLine(ls)
    ensures OtherLines(ls + [l]) == OtherLines(ls) + (if HasVersion(l) then [] else [l])
  {
    assert (ls + [l])[..|ls|] == ls;
  }

  /** `preprocess_version`: the `getline` loop keeping the last `#version` line aside. */
  method PreprocessVersion(source: string) returns (r: string)
    ensures r == VersionHoisted(source)
  {
    var lines := Lines(source);
    var output := "";
    var version := "";
    var i := 0;
    while i < |lines|
      invariant 0 <= i <= |lines|
      invariant version == LastVersionLine(lines[..i])
      invariant output == JoinLines(OtherLines(lines[..i]))
    {
      assert lines[..i + 1] == lines[..i] + [lines[i]];
      HoistSnoc(lines[..i], lines[i]);
      if HasVersion(lines[i]) {
        assert OtherLines(lines[..i]) + [] == OtherLines(lines[..i]);
        version := lines[i];
      } else {
        JoinLinesSnoc(OtherLines(lines[..i]), lines[i]);
        output := output + lines[i] + "\n";
      }
      i := i + 1;
    }
    assert lines[..i] == lines;
    r := version + "\n" + output;
  }

  /** Without a `#version` line the result is an empty line followed by the source, newline-terminated. */
  lemma {:induction false} NoVersionLine(source: string)
    requires forall k :: 0 <= k < |Lines(source)| ==> !HasVersion(Lines(source)[k])
    ensures VersionHoisted(source) == "\n" + (if source == [] || source[|source| - 1] == '\n' then source else source + "\n")
  {
    var ls := Lines(source);
    OtherLinesKeepsAll(ls);
    LinesRoundTrip(source);
    LastVersionLineIsLast(ls);
    assert LastVersionLine(ls) == "";
  }

  lemma {:induction false} OtherLinesKeepsAll(ls: seq<string>)
    requires forall k :: 0 <= k < |ls| ==> !HasVersion(ls[k])
    ensures OtherLines(ls) == ls
  {
    if ls != [] {
      OtherLinesKeepsAll(ls[..|ls| - 1]);
      assert ls[..|ls| - 1] + [ls[|ls| - 1]] == ls;
    }
  }

  lemma {:induction false} HoistedLines(v: string, ls: seq<string>)
    requires HasVersion(v)
    requires forall k :: 0 <= k < |ls| ==> !HasVersion(ls[k])
    ensures LastVersionLine([v] + ls) == v
    ensures OtherLines([v] + ls) == ls
  {
    if ls != [] {
      var front := ls[..|ls| - 1];
      assert ([v] + ls)[..|ls|] == [v] + front;
      HoistedLines(v, front);
      assert front + [ls[|ls| - 1]] == ls;
    } else {
      assert ([v] + ls)[..0] == [];
    }
  }

  /** When the source has a `#version` line, hoisting it a second time changes nothing. */
  lemma {:induction false} VersionHoistedIdempotent(source: string)
    requires exists k :: 0 <= k < |Lines(source)| && HasVersion(Lines(source)[k])
    ensures VersionHoisted(VersionHoisted(source)) == VersionHoisted(source)
  {
    var ls := Lines(source);
    var v, others := LastVersionLine(ls), OtherLines(ls);
    LastVersionLineIsLast(ls);
    OtherLinesMembers(ls);
    assert HasVersion(v);
    var k :| 0 <= k < |ls| && ls[k] == v && forall j :: k < j < |ls| ==> !HasVersion(ls[j]);
    assert NoNewline(v);
    assert forall j :: 0 <= j < |others| ==> others[j] in ls && !HasVersion(others[j]);
    assert forall j :: 0 <= j < |others| ==> NoNewline(others[j]);
    JoinLinesCons(v, others);
    JoinLinesRoundTrip([v] + others);
    HoistedLines(v, others);
  }

  ///////////////////////
  // preprocess_includes

  /** `preprocess_includes` throws once `depth > 4`. */
  const MAX_INCLUDE_DEPTH: nat := 4
  const DEPTH_ERROR: string := "exceeded max include recursion depth"

  /** The path `includeSearchPath + "/" + includeFile`. */
  function IncludePathOf(searchPath: string, name: string): string { searchPath + "/" + name }

  function DigitChar(d: nat): char requires d < 10 { "0123456789"[d] }

  /** Decimal digits of `n`, as `operator<<` writes a `size_t`. */
  function NatToString(n: nat): (r: string)
    ensures |r| >= 1
    ensures forall k :: 0 <= k < |r| ==> '0' <= r[k] <= '9'
  {
    if n < 10 then [DigitChar(n)] else NatToString(n / 10) + [DigitChar(n % 10)]
  }

  /** The number a string of decimal digits spells, most significant digit first. */
  function DecimalValue(s: string): int
  {
    if s == [] then 0 else 10 * DecimalValue(s[..|s| - 1]) + (s[|s| - 1] as int - '0' as int)
  }

  /**
   * The digits written for `n` spell `n`, with no leading zero, so distinct line numbers
   * give distinct `#line` markers.
   */
  lemma {:induction false} NatToStringValue(n: nat)
    ensures DecimalValue(NatToString(n)) == n
    ensures NatToString(n)[0] == '0' ==> n == 0
    decreases n
  {
    if n >= 10 {
      var front := NatToString(n / 10);
      NatToStringValue(n / 10);
      assert NatToString(n)[..|NatToString(n)| - 1] == front;
      assert NatToString(n)[0] == front[0];
    }
  }

  lemma NatToStringInjective(a: nat, b: nat)
    ensures NatToString(a) == NatToString(b) ==> a == b
  {
    NatToStringValue(a);
    NatToStringValue(b);
  }

  /** The marker written before source line `k`. */
  function LineMarker(k: nat): string { "#line " + NatToString(k) + "\n" }

  /** The output of one call and the paths it appended to `includes`, also when it threw. */
  datatype Expansion = Expansion(output: Result<string>, added: seq<string>)

  function PrependOk(s: string, r: Result<string>): (r': Result<string>)
    ensures r.Ok? <==> r'.Ok?
    ensures r.Ok? ==> r'.value == s + r.value
    ensures r.Err? ==> r' == r
  {
    if r.Ok? then Ok(s + r.value) else r
  }

  /** How many nesting levels are still allowed at `depth`. */
  function Budget(depth: nat): nat { if depth > MAX_INCLUDE_DEPTH then 0 else MAX_INCLUDE_DEPTH + 1 - depth }

  /**
   * `preprocess_includes(source, searchPath, includes, depth)`, with each nested call made at
   * `depth + 1` and every include line of one file expanded at the same depth. The source passes
   * `depth++` instead; that behaviour is `ExpandAsWritten` below.
   */
  function Expand(source: string, searchPath: string, read: string -> string,
                  matchInclude: string -> Option<string>, depth: nat): Expansion
    decreases Budget(depth), 1, 0
  {
    if depth > MAX_INCLUDE_DEPTH then Expansion(Err(DEPTH_ERROR), [])
    else ExpandLines(Lines(source), 1, searchPath, read, matchInclude, depth)
  }

  /** The rest of the `getline` loop from line number `lineNumber` on, over `lines`. */
  function ExpandLines(lines: seq<string>, lineNumber: nat, searchPath: string, read: string -> string,
                       matchInclude: string -> Option<string>, depth: nat): Expansion
    requires depth <= MAX_INCLUDE_DEPTH
    decreases Budget(depth), 0, |lines|
  {
    if lines == [] then Expansion(Ok(""), [])
    else
      var here := ExpandLine(lines[0], lineNumber, searchPath, read, matchInclude, depth);
      if here.output.Err? then here
      else
        var rest := ExpandLines(lines[1..], lineNumber + 1, searchPath, read, matchInclude, depth);
        Expansion(PrependOk(here.output.value, rest.output), here.added + rest.added)
  }

  /**
   * One turn of the loop: a non-include line is written after its `#line` marker, an include
   * line with a non-empty name is replaced by the expansion of that file and a newline, and
   * an include line with an empty name is dropped.
   */
  function ExpandLine(line: string, lineNumber: nat, searchPath: string, read: string -> string,
                      matchInclude: string -> Option<string>, depth: nat): Expansion
    requires depth <= MAX_INCLUDE_DEPTH
    decreases Budget(depth), 0, 0
  {
    match matchInclude(line)
    case None => Expansion(Ok(LineMarker(lineNumber) + line + "\n"), [])
    case Some(name) =>
      if name == [] then Expansion(Ok(""), [])
      else
        var path := IncludePathOf(searchPath, name);
        var sub := Expand(read(path), searchPath, read, matchInclude, depth + 1);
        Expansion(if sub.output.Err? then sub.output else Ok(sub.output.value + "\n"), [path] + sub.added)
  }

  lemma PrependOkTwice(a: string, b: string, r: Result<string>)
    ensures PrependOk(a, PrependOk(b, r)) == PrependOk(a + b, r)
  {
    if r.Ok? { assert a + (b + r.value) == (a + b) + r.value; }
  }

  lemma AppendAssoc<T>(a: seq<T>, b: seq<T>, c: seq<T>)
    ensures (a + b) + c == a + (b + c)
  {
  }

  lemma PrependOkEmpty(r: Result<string>)
    ensures PrependOk("", r) == r
  {
    if r.Ok? { assert "" + r.value == r.value; }
  }

  /** `preprocess_includes`: the `getline` loop over the lines of `source`. */
  method PreprocessIncludes(source: string, searchPath: string, read: string -> string,
                            matchInclude: string -> Option<string>, includes: seq<string>, depth: nat)
    returns (out: Result<string>, includes': seq<string>)
    ensures out == Expand(source, searchPath, read, matchInclude, depth).output
    ensures includes' == includes + Expand(source, searchPath, read, matchInclude, depth).added
    decreases Budget(depth), 1
  {
    if depth > MAX_INCLUDE_DEPTH {
      return Err(DEPTH_ERROR), includes;
    }
    var lines := Lines(source);
    ghost var whole := ExpandLines(lines, 1, searchPath, read, matchInclude, depth);
    var output := "";
    includes' := includes;
    var lineNumber := 1;
    var i := 0;
    assert lines[0..] == lines;
    PrependOkEmpty(whole.output);
    while i < |lines|
      invariant 0 <= i <= |lines| && lineNumber == i + 1
      invariant whole.output == PrependOk(output, ExpandLines(lines[i..], lineNumber, searchPath, read, matchInclude, depth).output)
      invariant includes + whole.added == includes' + ExpandLines(lines[i..], lineNumber, searchPath, read, matchInclude, depth).added
    {
      ghost var rest := ExpandLines(lines[i + 1..], lineNumber + 1, searchPath, read, matchInclude, depth);
      assert lines[i..][0] == lines[i] && lines[i..][1..] == lines[i + 1..];
      ghost var before := includes';
      var piece;
      piece, includes' := PreprocessLine(lines[i], lineNumber, searchPath, read, matchInclude, includes', depth);
      ghost var here := ExpandLine(lines[i], lineNumber, searchPath, read, matchInclude, depth);
      if piece.Err? {
        return piece, includes';
      }
      assert ExpandLines(lines[i..], lineNumber, searchPath, read, matchInclude, depth)
          == Expansion(PrependOk(piece.value, rest.output), here.added + rest.added);
      PrependOkTwice(output, piece.value, rest.output);
      AppendAssoc(before, here.added, rest.added);
      output := output + piece.value;
      lineNumber := lineNumber + 1;
      i := i + 1;
    }
    assert lines[i..] == [];
    assert output + "" == output;
    return Ok(output), includes';
  }

  /** The body of the `getline` loop for one line, appending to `includes` what the include line brings in. */
  method PreprocessLine(line: string, lineNumber: nat, searchPath: string, read: string -> string,
                        matchInclude: string -> Option<string>, includes: seq<string>, depth: nat)
    returns (piece: Result<string>, includes': seq<string>)
    requires depth <= MAX_INCLUDE_DEPTH
    ensures piece == ExpandLine(line, lineNumber, searchPath, read, matchInclude, depth).output
    ensures includes' == includes + ExpandLine(line, lineNumber, searchPath, read, matchInclude, depth).added
    decreases Budget(depth), 0
  {
    var captured := matchInclude(line);
    if captured.None? {
      return Ok(LineMarker(lineNumber) + line + "\n"), includes;
    }
    var includeFile := captured.value;
    var path := IncludePathOf(searchPath, includeFile);
    var includeString := read(path);
    if includeFile == [] {
      return Ok(""), includes;
    }
    ghost var nested := Expand(includeString, searchPath, read, matchInclude, depth + 1);
    assert ExpandLine(line, lineNumber, searchPath, read, matchInclude, depth)
        == Expansion(if nested.output.Err? then nested.output else Ok(nested.output.value + "\n"), [path] + nested.added);
    AppendAssoc(includes, [path], nested.added);
    var sub;
    sub, includes' := PreprocessIncludes(includeString, searchPath, read, matchInclude, includes + [path], depth + 1);
    if sub.Err? {
      return sub, includes';
    }
    return Ok(sub.value + "\n"), includes';
  }

  ////////////////////////////////////////
  // What the include expansion promises

  /** Past the depth limit nothing is read and the call throws. */
  lemma DepthLimit(source: string, searchPath: string, read: string -> string,
                   matchInclude: string -> Option<string>, depth: nat)
    requires depth > MAX_INCLUDE_DEPTH
    ensures Expand(source, searchPath, read, matchInclude, depth) == Expansion(Err(DEPTH_ERROR), [])
  {
  }

  /** The `#line` marker of line `k` and the line itself, for each line from number `k` on. */
  function Numbered(ls: seq<string>, k: nat): (r: seq<string>)
    ensures |r| == 2 * |ls|
  {
    if ls == [] then [] else ["#line " + NatToString(k), ls[0]] + Numbered(ls[1..], k + 1)
  }

  /** Entry `2j` of `Numbered(ls, k)` is the marker of line `k + j` and entry `2j + 1` is `ls[j]`. */
  lemma {:induction false} NumberedAt(ls: seq<string>, k: nat, j: nat)
    requires j < |ls|
    ensures Numbered(ls, k)[2 * j] == "#line " + NatToString(k + j)
    ensures Numbered(ls, k)[2 * j + 1] == ls[j]
    decreases j
  {
    if j > 0 {
      NumberedAt(ls[1..], k + 1, j - 1);
    }
  }

  lemma MarkerNoNewline(k: nat)
    ensures NoNewline("#line " + NatToString(k))
  {
    var m := "#line " + NatToString(k);
    assert forall i :: 0 <= i < |m| ==> m[i] != '\n' by {
      forall i | 0 <= i < |m| ensures m[i] != '\n' {
        if i >= 6 { assert m[i] == NatToString(k)[i - 6]; }
      }
    }
  }

  /** Lines of the include-free case: the marker, then the line, then the lines after it. */
  lemma NumberedOutputStep(lines: seq<string>, k: nat)
    requires lines != []
    ensures LineMarker(k) + lines[0] + "\n" + JoinLines(Numbered(lines[1..], k + 1)) == JoinLines(Numbered(lines, k))
  {
    var marker, rest := "#line " + NatToString(k), Numbered(lines[1..], k + 1);
    JoinLinesCons(lines[0], rest);
    JoinLinesCons(marker, [lines[0]] + rest);
    assert Numbered(lines, k) == [marker] + ([lines[0]] + rest);
    AppendAssoc(marker + "\n", lines[0] + "\n", JoinLines(rest));
    AppendAssoc(marker + "\n", lines[0], "\n");
    AppendAssoc(marker, "\n", lines[0]);
  }

  /**
   * Without include lines, line `j` (counting from `k`) comes out as `#line j` and a line
   * holding the source line itself: the output is exactly `Numbered(lines, k)` written out.
   */
  lemma {:induction false} NoIncludesNumbered(lines: seq<string>, k: nat, searchPath: string, read: string -> string,
                                              matchInclude: string -> Option<string>, depth: nat)
    requires depth <= MAX_INCLUDE_DEPTH
    requires forall j :: 0 <= j < |lines| ==> matchInclude(lines[j]).None?
    ensures ExpandLines(lines, k, searchPath, read, matchInclude, depth) == Expansion(Ok(JoinLines(Numbered(lines, k))), [])
    decreases |lines|
  {
    if lines != [] {
      assert matchInclude(lines[0]).None?;
      assert forall j :: 0 <= j < |lines[1..]| ==> lines[1..][j] == lines[j + 1];
      NoIncludesNumbered(lines[1..], k + 1, searchPath, read, matchInclude, depth);
      NumberedOutputStep(lines, k);
    }
  }

  /** The whole output of a file without include lines, split into lines again. */
  lemma NoIncludesOutputLines(source: string, searchPath: string, read: string -> string,
                              matchInclude: string -> Option<string>, depth: nat)
    requires depth <= MAX_INCLUDE_DEPTH
    requires IncludeFree(source, matchInclude)
    ensures var e := Expand(source, searchPath, read, matchInclude, depth);
      e.added == [] && e.output.Ok? && Lines(e.output.value) == Numbered(Lines(source), 1)
  {
    var ls := Lines(source);
    NoIncludesNumbered(ls, 1, searchPath, read, matchInclude, depth);
    NumberedNoNewline(ls, 1);
    JoinLinesRoundTrip(Numbered(ls, 1));
  }

  /** Numbering newline-free lines gives newline-free lines. */
  lemma NumberedNoNewline(ls: seq<string>, k: nat)
    requires forall j :: 0 <= j < |ls| ==> NoNewline(ls[j])
    ensures forall j :: 0 <= j < |Numbered(ls, k)| ==> NoNewline(Numbered(ls, k)[j])
  {
    var n := Numbered(ls, k);
    forall j | 0 <= j < |n| ensures NoNewline(n[j]) {
      var h := j / 2;
      NumberedAt(ls, k, h);
      if j % 2 == 0 {
        assert j == 2 * h;
        MarkerNoNewline(k + h);
      } else {
        assert j == 2 * h + 1;
      }
    }
  }

  /** No line of the text is an include line. */
  ghost predicate IncludeFree(text: string, matchInclude: string -> Option<string>) {
    forall j :: 0 <= j < |Lines(text)| ==> matchInclude(Lines(text)[j]).None?
  }

  /** The paths of the include lines with a non-empty name, in the order they appear. */
  function DirectIncludes(lines: seq<string>, searchPath: string, matchInclude: string -> Option<string>): seq<string>
  {
    if lines == [] then []
    else
      var m := matchInclude(lines[0]);
      (if m.Some? && m.value != [] then [IncludePathOf(searchPath, m.value)] else [])
      + DirectIncludes(lines[1..], searchPath, matchInclude)
  }

  /**
   * When the files included are themselves free of include lines and the depth leaves room,
   * the paths appended are exactly `searchPath/name` of each include line with a non-empty name,
   * in encounter order, and nothing throws, however many include lines there are (as written,
   * the sixth one throws: see `AsWrittenSiblingIncludes`).
   */
  lemma {:induction false} OneLevelIncludes(lines: seq<string>, k: nat, searchPath: string, read: string -> string,
                                            matchInclude: string -> Option<string>, depth: nat)
    requires depth < MAX_INCLUDE_DEPTH
    requires forall j :: 0 <= j < |lines| && matchInclude(lines[j]).Some? && matchInclude(lines[j]).value != [] ==>
      IncludeFree(read(IncludePathOf(searchPath, matchInclude(lines[j]).value)), matchInclude)
    ensures var e := ExpandLines(lines, k, searchPath, read, matchInclude, depth);
      e.output.Ok? && e.added == DirectIncludes(lines, searchPath, matchInclude)
    decreases |lines|
  {
    if lines != [] {
      var m := matchInclude(lines[0]);
      if m.Some? && m.value != [] {
        var path := IncludePathOf(searchPath, m.value);
        assert IncludeFree(read(path), matchInclude);
        NoIncludesNumbered(Lines(read(path)), 1, searchPath, read, matchInclude, depth + 1);
      }
      assert forall j :: 1 <= j < |lines| ==> lines[1..][j - 1] == lines[j];
      OneLevelIncludes(lines[1..], k + 1, searchPath, read, matchInclude, depth);
    }
  }

  /**
   * The output lines of one source line numbered `n` when the files it includes hold no include
   * line: a non-include line gives its marker and itself; an include line with a non-empty name
   * gives the included file's numbered lines and an empty line, and not the include line itself.
   */
  function Block(line: string, n: nat, searchPath: string, read: string -> string,
                 matchInclude: string -> Option<string>): seq<string>
  {
    match matchInclude(line)
    case None => ["#line " + NatToString(n), line]
    case Some(name) => if name == [] then [] else Numbered(Lines(read(IncludePathOf(searchPath, name))), 1) + [""]
  }

  /** The blocks of `lines`, the first numbered `k` and each next one higher, include lines counted. */
  function Blocks(lines: seq<string>, k: nat, searchPath: string, read: string -> string,
                  matchInclude: string -> Option<string>): seq<string>
  {
    if lines == [] then [] else Block(lines[0], k, searchPath, read, matchInclude) + Blocks(lines[1..], k + 1, searchPath, read, matchInclude)
  }

  lemma {:induction false} JoinLinesAppend(a: seq<string>, b: seq<string>)
    ensures JoinLines(a + b) == JoinLines(a) + JoinLines(b)
    decreases |b|
  {
    if b == [] {
      assert a + b == a;
    } else {
      var front := b[..|b| - 1];
      assert (a + b)[..|a + b| - 1] == a + front;
      JoinLinesAppend(a, front);
      AppendAssoc(JoinLines(a), JoinLines(front), b[|b| - 1]);
      AppendAssoc(JoinLines(a), JoinLines(front) + b[|b| - 1], "\n");
    }
  }

  /** One line's piece of output is its block written out. */
  lemma BlockWritten(line: string, n: nat, searchPath: string, read: string -> string,
                     matchInclude: string -> Option<string>, depth: nat)
    requires depth < MAX_INCLUDE_DEPTH
    requires var m := matchInclude(line);
      m.Some? && m.value != [] ==> IncludeFree(read(IncludePathOf(searchPath, m.value)), matchInclude)
    ensures ExpandLine(line, n, searchPath, read, matchInclude, depth)
         == Expansion(Ok(JoinLines(Block(line, n, searchPath, read, matchInclude))), DirectIncludes([line], searchPath, matchInclude))
  {
    assert DirectIncludes([line], searchPath, matchInclude) ==
      (if matchInclude(line).Some? && matchInclude(line).value != [] then [IncludePathOf(searchPath, matchInclude(line).value)] else []) + [];
    match matchInclude(line)
    case None =>
      assert [line][1..] == [];
      NumberedOutputStep([line], n);
      assert Numbered([line], n) == ["#line " + NatToString(n), line];
      assert LineMarker(n) + line + "\n" + "" == LineMarker(n) + line + "\n";
    case Some(name) =>
      if name != [] {
        var file := read(IncludePathOf(searchPath, name));
        var path := IncludePathOf(searchPath, name);
        NoIncludesNumbered(Lines(file), 1, searchPath, read, matchInclude, depth + 1);
        var sub := Expand(file, searchPath, read, matchInclude, depth + 1);
        assert sub == Expansion(Ok(JoinLines(Numbered(Lines(file), 1))), []);
        JoinLinesSnoc(Numbered(Lines(file), 1), "");
        assert JoinLines(Numbered(Lines(file), 1)) + "" + "\n" == JoinLines(Numbered(Lines(file), 1)) + "\n";
        assert [path] + sub.added == [path] + [];
      }
  }

  /** With one level of include-free includes, the output is the blocks of the lines written out. */
  lemma {:induction false} OneLevelWritten(lines: seq<string>, k: nat, searchPath: string, read: string -> string,
                                           matchInclude: string -> Option<string>, depth: nat)
    requires depth < MAX_INCLUDE_DEPTH
    requires forall j :: 0 <= j < |lines| && matchInclude(lines[j]).Some? && matchInclude(lines[j]).value != [] ==>
      IncludeFree(read(IncludePathOf(searchPath, matchInclude(lines[j]).value)), matchInclude)
    ensures ExpandLines(lines, k, searchPath, read, matchInclude, depth).output == Ok(JoinLines(Blocks(lines, k, searchPath, read, matchInclude)))
    decreases |lines|
  {
    if lines != [] {
      var b := Block(lines[0], k, searchPath, read, matchInclude);
      var bs := Blocks(lines[1..], k + 1, searchPath, read, matchInclude);
      BlockWritten(lines[0], k, searchPath, read, matchInclude, depth);
      assert forall j :: 1 <= j < |lines| ==> lines[1..][j - 1] == lines[j];
      OneLevelWritten(lines[1..], k + 1, searchPath, read, matchInclude, depth);
      JoinLinesAppend(b, bs);
    }
  }

  lemma {:induction false} BlocksNoNewline(lines: seq<string>, k: nat, searchPath: string, read: string -> string,
                                           matchInclude: string -> Option<string>)
    requires forall j :: 0 <= j < |lines| ==> NoNewline(lines[j])
    ensures forall i :: 0 <= i < |Blocks(lines, k, searchPath, read, matchInclude)| ==>
      NoNewline(Blocks(lines, k, searchPath, read, matchInclude)[i])
    decreases |lines|
  {
    if lines != [] {
      var b := Block(lines[0], k, searchPath, read, matchInclude);
      var bs := Blocks(lines[1..], k + 1, searchPath, read, matchInclude);
      assert forall j :: 1 <= j < |lines| ==> lines[1..][j - 1] == lines[j];
      BlocksNoNewline(lines[1..], k + 1, searchPath, read, matchInclude);
      assert Blocks(lines, k, searchPath, read, matchInclude) == b + bs;
      match matchInclude(lines[0]) {
        case None => MarkerNoNewline(k);
        case Some(name) =>
          if name != [] {
            NumberedNoNewline(Lines(read(IncludePathOf(searchPath, name))), 1);
          }
      }
      assert forall i :: 0 <= i < |b| ==> NoNewline(b[i]);
      forall i | 0 <= i < |b + bs| ensures NoNewline((b + bs)[i]) {
        if i < |b| { assert (b + bs)[i] == b[i]; } else { assert (b + bs)[i] == bs[i - |b|]; }
      }
    }
  }

  lemma {:induction false} BlocksAppend(a: seq<string>, b: seq<string>, k: nat, searchPath: string, read: string -> string,
                                        matchInclude: string -> Option<string>)
    ensures Blocks(a + b, k, searchPath, read, matchInclude)
         == Blocks(a, k, searchPath, read, matchInclude) + Blocks(b, k + |a|, searchPath, read, matchInclude)
    decreases |a|
  {
    if a == [] {
      assert a + b == b;
    } else {
      assert (a + b)[0] == a[0] && (a + b)[1..] == a[1..] + b;
      BlocksAppend(a[1..], b, k + 1, searchPath, read, matchInclude);
      AppendAssoc(Block(a[0], k, searchPath, read, matchInclude),
                  Blocks(a[1..], k + 1, searchPath, read, matchInclude), Blocks(b, k + |a|, searchPath, read, matchInclude));
    }
  }

  /** The blocks of `lines` around line `j`: those before it, its own, and those after it. */
  lemma BlocksSplit(lines: seq<string>, k: nat, j: nat, searchPath: string, read: string -> string,
                    matchInclude: string -> Option<string>)
    requires j < |lines|
    ensures Blocks(lines, k, searchPath, read, matchInclude)
         == Blocks(lines[..j], k, searchPath, read, matchInclude) + Block(lines[j], k + j, searchPath, read, matchInclude)
          + Blocks(lines[j + 1..], k + j + 1, searchPath, read, matchInclude)
  {
    var x := lines[j];
    assert lines == lines[..j] + ([x] + lines[j + 1..]);
    BlocksAppend(lines[..j], [x] + lines[j + 1..], k, searchPath, read, matchInclude);
    assert ([x] + lines[j + 1..])[0] == x && ([x] + lines[j + 1..])[1..] == lines[j + 1..];
    AppendAssoc(Blocks(lines[..j], k, searchPath, read, matchInclude), Block(x, k + j, searchPath, read, matchInclude),
                Blocks(lines[j + 1..], k + j + 1, searchPath, read, matchInclude));
  }

  /**
   * Including one level of include-free files, the output splits into the lines' blocks, so a
   * non-include line `j` (include lines counted) comes out as the marker of line `k + j` followed
   * by the line itself, after the blocks of the lines before it.
   */
  lemma OneLevelNumbering(lines: seq<string>, k: nat, j: nat, searchPath: string, read: string -> string,
                          matchInclude: string -> Option<string>, depth: nat)
    requires depth < MAX_INCLUDE_DEPTH
    requires forall i :: 0 <= i < |lines| ==> NoNewline(lines[i])
    requires forall i :: 0 <= i < |lines| && matchInclude(lines[i]).Some? && matchInclude(lines[i]).value != [] ==>
      IncludeFree(read(IncludePathOf(searchPath, matchInclude(lines[i]).value)), matchInclude)
    requires j < |lines| && matchInclude(lines[j]).None?
    ensures var e := ExpandLines(lines, k, searchPath, read, matchInclude, depth);
      var p := |Blocks(lines[..j], k, searchPath, read, matchInclude)|;
      && e.output.Ok?
      && Lines(e.output.value) == Blocks(lines, k, searchPath, read, matchInclude)
      && p + 1 < |Lines(e.output.value)|
      && Lines(e.output.value)[p] == "#line " + NatToString(k + j)
      && Lines(e.output.value)[p + 1] == lines[j]
  {
    OneLevelWritten(lines, k, searchPath, read, matchInclude, depth);
    BlocksNoNewline(lines, k, searchPath, read, matchInclude);
    JoinLinesRoundTrip(Blocks(lines, k, searchPath, read, matchInclude));
    BlocksSplit(lines, k, j, searchPath, read, matchInclude);
  }

  /** When neither a `#line` marker nor the empty line is an include line, no block holds an include line. */
  lemma {:induction false} BlocksIncludeFree(lines: seq<string>, k: nat, searchPath: string, read: string -> string,
                                                      matchInclude: string -> Option<string>)
    requires matchInclude("").None? && forall n: nat :: matchInclude("#line " + NatToString(n)).None?
    requires forall i :: 0 <= i < |lines| && matchInclude(lines[i]).Some? && matchInclude(lines[i]).value != [] ==>
      IncludeFree(read(IncludePathOf(searchPath, matchInclude(lines[i]).value)), matchInclude)
    ensures forall i :: 0 <= i < |Blocks(lines, k, searchPath, read, matchInclude)| ==>
      matchInclude(Blocks(lines, k, searchPath, read, matchInclude)[i]).None?
    decreases |lines|
  {
    if lines != [] {
      var b := Block(lines[0], k, searchPath, read, matchInclude);
      var bs := Blocks(lines[1..], k + 1, searchPath, read, matchInclude);
      assert forall j :: 1 <= j < |lines| ==> lines[1..][j - 1] == lines[j];
      BlocksIncludeFree(lines[1..], k + 1, searchPath, read, matchInclude);
      assert Blocks(lines, k, searchPath, read, matchInclude) == b + bs;
      var m := matchInclude(lines[0]);
      if m.Some? && m.value != [] {
        var fl := Lines(read(IncludePathOf(searchPath, m.value)));
        assert IncludeFree(read(IncludePathOf(searchPath, m.value)), matchInclude);
        forall i | 0 <= i < |Numbered(fl, 1)| ensures matchInclude(Numbered(fl, 1)[i]).None? {
          NumberedAt(fl, 1, i / 2);
          if i % 2 == 0 { assert i == 2 * (i / 2); } else { assert i == 2 * (i / 2) + 1; }
        }
      }
      assert forall i :: 0 <= i < |b| ==> matchInclude(b[i]).None?;
      forall i | 0 <= i < |b + bs| ensures matchInclude((b + bs)[i]).None? {
        if i < |b| { assert (b + bs)[i] == b[i]; } else { assert (b + bs)[i] == bs[i - |b|]; }
      }
    }
  }

  /**
   * When neither a `#line` marker nor the empty line is an include line (as for the include
   * regex), the output of one level of include-free includes holds no include line: the include
   * lines themselves are never written.
   */
  lemma OneLevelEmitsNoIncludeLine(lines: seq<string>, k: nat, searchPath: string, read: string -> string,
                                   matchInclude: string -> Option<string>, depth: nat)
    requires depth < MAX_INCLUDE_DEPTH
    requires forall i :: 0 <= i < |lines| ==> NoNewline(lines[i])
    requires matchInclude("").None? && forall n: nat :: matchInclude("#line " + NatToString(n)).None?
    requires forall i :: 0 <= i < |lines| && matchInclude(lines[i]).Some? && matchInclude(lines[i]).value != [] ==>
      IncludeFree(read(IncludePathOf(searchPath, matchInclude(lines[i]).value)), matchInclude)
    ensures var e := ExpandLines(lines, k, searchPath, read, matchInclude, depth);
      e.output.Ok? && IncludeFree(e.output.value, matchInclude)
  {
    OneLevelWritten(lines, k, searchPath, read, matchInclude, depth);
    BlocksNoNewline(lines, k, searchPath, read, matchInclude);
    JoinLinesRoundTrip(Blocks(lines, k, searchPath, read, matchInclude));
    BlocksIncludeFree(lines, k, searchPath, read, matchInclude);
  }

  /** The path is `searchPath/name` for a non-empty name. */
  predicate PathUnder(path: string, searchPath: string) {
    |path| > |searchPath| + 1 && path[..|searchPath| + 1] == searchPath + "/"
  }

  /** Every path appended to `includes` is `searchPath/name` for some non-empty name. */
  ghost predicate UnderSearchPath(paths: seq<string>, searchPath: string) {
    forall j :: 0 <= j < |paths| ==> PathUnder(paths[j], searchPath)
  }

  lemma {:induction false} ExpandAddsUnderSearchPath(source: string, searchPath: string, read: string -> string,
                                                     matchInclude: string -> Option<string>, depth: nat)
    ensures UnderSearchPath(Expand(source, searchPath, read, matchInclude, depth).added, searchPath)
    decreases Budget(depth), 1, 0
  {
    if depth <= MAX_INCLUDE_DEPTH {
      LinesAddUnderSearchPath(Lines(source), 1, searchPath, read, matchInclude, depth);
    }
  }

  lemma {:induction false} LinesAddUnderSearchPath(lines: seq<string>, k: nat, searchPath: string, read: string -> string,
                                                   matchInclude: string -> Option<string>, depth: nat)
    requires depth <= MAX_INCLUDE_DEPTH
    ensures UnderSearchPath(ExpandLines(lines, k, searchPath, read, matchInclude, depth).added, searchPath)
    decreases Budget(depth), 0, |lines|
  {
    if lines != [] {
      var m := matchInclude(lines[0]);
      var here := ExpandLine(lines[0], k, searchPath, read, matchInclude, depth);
      if m.Some? && m.value != [] {
        var path := IncludePathOf(searchPath, m.value);
        assert path[..|searchPath| + 1] == searchPath + "/";
        ExpandAddsUnderSearchPath(read(path), searchPath, read, matchInclude, depth + 1);
        UnderSearchPathConcat([path], Expand(read(path), searchPath, read, matchInclude, depth + 1).added, searchPath);
      }
      if here.output.Ok? {
        LinesAddUnderSearchPath(lines[1..], k + 1, searchPath, read, matchInclude, depth);
        UnderSearchPathConcat(here.added, ExpandLines(lines[1..], k + 1, searchPath, read, matchInclude, depth).added, searchPath);
      }
    }
  }

  lemma UnderSearchPathConcat(a: seq<string>, b: seq<string>, searchPath: string)
    requires UnderSearchPath(a, searchPath) && UnderSearchPath(b, searchPath)
    ensures UnderSearchPath(a + b, searchPath)
  {
    forall j | 0 <= j < |a + b| ensures PathUnder((a + b)[j], searchPath) {
      if j < |a| { assert (a + b)[j] == a[j]; } else { assert (a + b)[j] == b[j - |a|]; }
    }
  }

  /** A file whose only line includes the file itself. */
  ghost predicate SelfIncluding(src: string, searchPath: string, read: string -> string, matchInclude: string -> Option<string>) {
    Lines(src) == [src] && matchInclude(src).Some? && matchInclude(src).value != [] &&
    read(IncludePathOf(searchPath, matchInclude(src).value)) == src
  }

  function Repeat(x: string, n: nat): (r: seq<string>)
    ensures |r| == n && forall j :: 0 <= j < n ==> r[j] == x
  {
    if n == 0 then [] else [x] + Repeat(x, n - 1)
  }

  /**
   * With each nested call one level deeper, a self-including file is expanded at depths
   * `depth`, ..., 4, adding its own path each time, and the call at depth 5 throws.
   */
  lemma {:induction false} SelfIncludeStopsAtDepthLimit(src: string, searchPath: string, read: string -> string,
                                                        matchInclude: string -> Option<string>, depth: nat)
    requires SelfIncluding(src, searchPath, read, matchInclude) && depth <= MAX_INCLUDE_DEPTH + 1
    ensures Expand(src, searchPath, read, matchInclude, depth)
         == Expansion(Err(DEPTH_ERROR), Repeat(IncludePathOf(searchPath, matchInclude(src).value), MAX_INCLUDE_DEPTH + 1 - depth))
    decreases MAX_INCLUDE_DEPTH + 1 - depth
  {
    if depth <= MAX_INCLUDE_DEPTH {
      var path := IncludePathOf(searchPath, matchInclude(src).value);
      SelfIncludeStopsAtDepthLimit(src, searchPath, read, matchInclude, depth + 1);
      var sub := Expand(src, searchPath, read, matchInclude, depth + 1);
      assert ExpandLine(src, 1, searchPath, read, matchInclude, depth) == Expansion(sub.output, [path] + sub.added);
      assert [path] + Repeat(path, MAX_INCLUDE_DEPTH - depth) == Repeat(path, MAX_INCLUDE_DEPTH + 1 - depth);
    }
  }

  ////////////////////////////////////////////////////////////
  // The include expansion as written: `depth++` as argument

  /**
   * `preprocess_includes` as the source writes it: the nested call receives the current
   * value of `depth` and later lines of the same file see it one higher. None is returned
   * when more than `fuel` nested calls would be needed.
   */
  function ExpandAsWritten(fuel: nat, source: string, searchPath: string, read: string -> string,
                           matchInclude: string -> Option<string>, depth: int): Option<Expansion>
    decreases fuel, 1, 0
  {
    if depth > MAX_INCLUDE_DEPTH as int then Some(Expansion(Err(DEPTH_ERROR), []))
    else ExpandLinesAsWritten(fuel, Lines(source), 1, searchPath, read, matchInclude, depth)
  }

  function ExpandLinesAsWritten(fuel: nat, lines: seq<string>, lineNumber: nat, searchPath: string, read: string -> string,
                                matchInclude: string -> Option<string>, depth: int): Option<Expansion>
    decreases fuel, 0, |lines|
  {
    if lines == [] then Some(Expansion(Ok(""), []))
    else
      match matchInclude(lines[0])
      case None =>
        var rest := ExpandLinesAsWritten(fuel, lines[1..], lineNumber + 1, searchPath, read, matchInclude, depth);
        if rest.None? then None
        else Some(Expansion(PrependOk(LineMarker(lineNumber) + lines[0] + "\n", rest.value.output), rest.value.added))
      case Some(name) =>
        if name == [] then ExpandLinesAsWritten(fuel, lines[1..], lineNumber + 1, searchPath, read, matchInclude, depth)
        else if fuel == 0 then None
        else
          var path := IncludePathOf(searchPath, name);
          var sub := ExpandAsWritten(fuel - 1, read(path), searchPath, read, matchInclude, depth);
          if sub.None? then None
          else if sub.value.output.Err? then Some(Expansion(sub.value.output, [path] + sub.value.added))
          else
            var rest := ExpandLinesAsWritten(fuel, lines[1..], lineNumber + 1, searchPath, read, matchInclude, depth + 1);
            if rest.None? then None
            else Some(Expansion(PrependOk(sub.value.output.value + "\n", rest.value.output), [path] + sub.value.added + rest.value.added))
  }

  /** As written, a self-including file never reaches the depth check: no amount of nesting finishes it. */
  lemma {:induction false} AsWrittenSelfIncludeNeverEnds(fuel: nat, src: string, searchPath: string, read: string -> string,
                                                         matchInclude: string -> Option<string>, depth: int)
    requires SelfIncluding(src, searchPath, read, matchInclude) && depth <= MAX_INCLUDE_DEPTH as int
    ensures ExpandAsWritten(fuel, src, searchPath, read, matchInclude, depth).None?
    decreases fuel
  {
    if fuel > 0 {
      AsWrittenSelfIncludeNeverEnds(fuel - 1, src, searchPath, read, matchInclude, depth);
    }
  }

  /** As written, a file without include lines is numbered exactly as by the corrected expansion, at every depth. */
  lemma {:induction false} AsWrittenNoIncludes(fuel: nat, lines: seq<string>, k: nat, searchPath: string, read: string -> string,
                                               matchInclude: string -> Option<string>, depth: int)
    requires forall j :: 0 <= j < |lines| ==> matchInclude(lines[j]).None?
    ensures ExpandLinesAsWritten(fuel, lines, k, searchPath, read, matchInclude, depth)
         == Some(Expansion(Ok(JoinLines(Numbered(lines, k))), []))
    decreases |lines|
  {
    if lines != [] {
      assert matchInclude(lines[0]).None?;
      assert forall j :: 0 <= j < |lines[1..]| ==> lines[1..][j] == lines[j + 1];
      AsWrittenNoIncludes(fuel, lines[1..], k + 1, searchPath, read, matchInclude, depth);
      NumberedOutputStep(lines, k);
    }
  }

  /** Every line is an include line with a non-empty name whose file holds no include line. */
  ghost predicate IncludesOfIncludeFree(lines: seq<string>, searchPath: string, read: string -> string,
                                        matchInclude: string -> Option<string>) {
    forall j :: 0 <= j < |lines| ==>
      matchInclude(lines[j]).Some? && matchInclude(lines[j]).value != [] &&
      IncludeFree(read(IncludePathOf(searchPath, matchInclude(lines[j]).value)), matchInclude)
  }

  /** How many include lines of one file succeed, as written, when the loop starts at `depth`. */
  function SiblingRoom(depth: int): nat { if depth > MAX_INCLUDE_DEPTH as int then 0 else (MAX_INCLUDE_DEPTH as int + 1 - depth) as nat }

  /**
   * As written, the `j`-th include line of a file is expanded at `depth + j`: a file made of
   * include lines of include-free files succeeds iff it has at most `5 - depth` of them, and
   * the paths appended are those of the lines up to and including the one that throws.
   */
  lemma {:induction false} AsWrittenSiblingIncludes(fuel: nat, lines: seq<string>, k: nat, searchPath: string, read: string -> string,
                                                    matchInclude: string -> Option<string>, depth: int)
    requires fuel > 0 && IncludesOfIncludeFree(lines, searchPath, read, matchInclude)
    ensures var r := ExpandLinesAsWritten(fuel, lines, k, searchPath, read, matchInclude, depth);
      && r.Some?
      && (r.value.output.Ok? <==> |lines| <= SiblingRoom(depth))
      && r.value.added == DirectIncludes(lines[..if |lines| <= SiblingRoom(depth) then |lines| else SiblingRoom(depth) + 1], searchPath, matchInclude)
    decreases |lines|
  {
    if lines == [] {
      assert lines[..0] == [];
    } else {
      var name := matchInclude(lines[0]).value;
      var path := IncludePathOf(searchPath, name);
      var file := read(path);
      assert IncludeFree(file, matchInclude);
      assert DirectIncludes([lines[0]], searchPath, matchInclude) == [path] + DirectIncludes([], searchPath, matchInclude);
      if depth > MAX_INCLUDE_DEPTH as int {
        assert lines[..1] == [lines[0]];
      } else {
        AsWrittenNoIncludes(fuel - 1, Lines(file), 1, searchPath, read, matchInclude, depth);
        assert forall j :: 0 <= j < |lines[1..]| ==> lines[1..][j] == lines[j + 1];
        AsWrittenSiblingIncludes(fuel, lines[1..], k + 1, searchPath, read, matchInclude, depth + 1);
        var m := if |lines| <= SiblingRoom(depth) then |lines| else SiblingRoom(depth) + 1;
        assert lines[..m][0] == lines[0] && lines[..m][1..] == lines[1..][..m - 1];
      }
    }
  }

  /**
   * Six include lines of include-free files at depth 0: the corrected expansion succeeds, while
   * as written the sixth include is expanded at depth 5 and throws.
   */
  lemma SiblingIncludesDisagree(lines: seq<string>, searchPath: string, read: string -> string,
                                matchInclude: string -> Option<string>)
    requires |lines| == 6 && IncludesOfIncludeFree(lines, searchPath, read, matchInclude)
    ensures ExpandLines(lines, 1, searchPath, read, matchInclude, 0).output.Ok?
    ensures var r := ExpandLinesAsWritten(1, lines, 1, searchPath, read, matchInclude, 0);
      r.Some? && r.value.output == Err(DEPTH_ERROR)
  {
    OneLevelIncludes(lines, 1, searchPath, read, matchInclude, 0);
    AsWrittenSiblingIncludes(1, lines, 1, searchPath, read, matchInclude, 0);
    AsWrittenSiblingError(1, lines, 1, searchPath, read, matchInclude, 0);
  }

  /** As written, the error a file of include lines of include-free files throws is the depth error. */
  lemma {:induction false} AsWrittenSiblingError(fuel: nat, lines: seq<string>, k: nat, searchPath: string, read: string -> string,
                                                 matchInclude: string -> Option<string>, depth: int)
    requires fuel > 0 && IncludesOfIncludeFree(lines, searchPath, read, matchInclude)
    ensures var r := ExpandLinesAsWritten(fuel, lines, k, searchPath, read, matchInclude, depth);
      r.Some? && (r.value.output.Ok? || r.value.output == Err(DEPTH_ERROR))
    decreases |lines|
  {
    if lines != [] {
      var file := read(IncludePathOf(searchPath, matchInclude(lines[0]).value));
      assert IncludeFree(file, matchInclude);
      if depth <= MAX_INCLUDE_DEPTH as int {
        AsWrittenNoIncludes(fuel - 1, Lines(file), 1, searchPath, read, matchInclude, depth);
        assert forall j :: 0 <= j < |lines[1..]| ==> lines[1..][j] == lines[j + 1];
        AsWrittenSiblingError(fuel, lines[1..], k + 1, searchPath, read, matchInclude, depth + 1);
      }
    }
  }

  /**
   * Files each made of one include line naming the next, the last one free of include lines:
   * `files[0]` includes `files[1]`, which includes `files[2]`, and so on.
   */
  ghost predicate IncludeChain(files: seq<string>, searchPath: string, read: string -> string,
                               matchInclude: string -> Option<string>) {
    && |files| > 0
    && (forall i :: 0 <= i < |files| - 1 ==>
          Lines(files[i]) == [files[i]] && matchInclude(files[i]).Some? && matchInclude(files[i]).value != [] &&
          read(IncludePathOf(searchPath, matchInclude(files[i]).value)) == files[i + 1])
    && IncludeFree(files[|files| - 1], matchInclude)
  }

  lemma IncludeChainTail(files: seq<string>, searchPath: string, read: string -> string, matchInclude: string -> Option<string>)
    requires IncludeChain(files, searchPath, read, matchInclude) && |files| > 1
    ensures IncludeChain(files[1..], searchPath, read, matchInclude)
    ensures read(IncludePathOf(searchPath, matchInclude(files[0]).value)) == files[1..][0]
  {
    assert forall i :: 0 <= i < |files[1..]| ==> files[1..][i] == files[i + 1];
  }

  /** As written, the nested call of each link keeps the depth, so a chain of any length expands without throwing. */
  lemma {:induction false} AsWrittenChainSucceeds(fuel: nat, files: seq<string>, searchPath: string, read: string -> string,
                                                  matchInclude: string -> Option<string>, depth: int)
    requires IncludeChain(files, searchPath, read, matchInclude)
    requires depth <= MAX_INCLUDE_DEPTH as int && fuel >= |files| - 1
    ensures var r := ExpandAsWritten(fuel, files[0], searchPath, read, matchInclude, depth);
      r.Some? && r.value.output.Ok?
    decreases |files|
  {
    if |files| == 1 {
      AsWrittenNoIncludes(fuel, Lines(files[0]), 1, searchPath, read, matchInclude, depth);
    } else {
      IncludeChainTail(files, searchPath, read, matchInclude);
      AsWrittenChainSucceeds(fuel - 1, files[1..], searchPath, read, matchInclude, depth);
      var f := files[0];
      var path := IncludePathOf(searchPath, matchInclude(f).value);
      var sub := ExpandAsWritten(fuel - 1, read(path), searchPath, read, matchInclude, depth);
      assert sub.Some? && sub.value.output.Ok?;
      assert Lines(f) == [f] && [f][1..] == [];
      var rest := ExpandLinesAsWritten(fuel, [], 2, searchPath, read, matchInclude, depth + 1);
      assert rest == Some(Expansion(Ok(""), []));
      assert ExpandLinesAsWritten(fuel, [f], 1, searchPath, read, matchInclude, depth)
          == Some(Expansion(PrependOk(sub.value.output.value + "\n", rest.value.output), [path] + sub.value.added + rest.value.added));
    }
  }

  /** With each nested call one level deeper, a chain of more than `5 - depth` links reaches depth 5 and throws. */
  lemma {:induction false} ChainStopsAtDepthLimit(files: seq<string>, searchPath: string, read: string -> string,
                                                  matchInclude: string -> Option<string>, depth: nat)
    requires IncludeChain(files, searchPath, read, matchInclude)
    requires |files| + depth > MAX_INCLUDE_DEPTH + 1
    ensures Expand(files[0], searchPath, read, matchInclude, depth).output == Err(DEPTH_ERROR)
    decreases MAX_INCLUDE_DEPTH + 1 - depth
  {
    if depth <= MAX_INCLUDE_DEPTH {
      IncludeChainTail(files, searchPath, read, matchInclude);
      ChainStopsAtDepthLimit(files[1..], searchPath, read, matchInclude, depth + 1);
      var f := files[0];
      var path := IncludePathOf(searchPath, matchInclude(f).value);
      var sub := Expand(read(path), searchPath, read, matchInclude, depth + 1);
      assert sub.output == Err(DEPTH_ERROR);
      assert ExpandLine(f, 1, searchPath, read, matchInclude, depth) == Expansion(sub.output, [path] + sub.added);
      assert Lines(f) == [f];
      assert ExpandLines([f], 1, searchPath, read, matchInclude, depth) == ExpandLine(f, 1, searchPath, read, matchInclude, depth);
    }
  }

  /** A chain of six files from depth 0: the corrected expansion throws at depth 5, while as written it succeeds. */
  lemma ChainIncludesDisagree(files: seq<string>, searchPath: string, read: string -> string,
                              matchInclude: string -> Option<string>)
    requires |files| == 6 && IncludeChain(files, searchPath, read, matchInclude)
    ensures Expand(files[0], searchPath, read, matchInclude, 0).output == Err(DEPTH_ERROR)
    ensures var r := ExpandAsWritten(5, files[0], searchPath, read, matchInclude, 0);
      r.Some? && r.value.output.Ok?
  {
    ChainStopsAtDepthLimit(files, searchPath, read, matchInclude, 0);
    AsWrittenChainSucceeds(5, files, searchPath, read, matchInclude, 0);
  }

  ///////////////////////////////////////////
  // preprocess: defines, includes, version

  /** The `#define` lines written ahead of each non-empty stage, one per define, in order. */
  function DefineDirectives(defines: seq<string>): seq<string> {
    seq(|defines|, i requires 0 <= i < |defines| => "#define " + defines[i])
  }

  /** The text of one stage handed to the include pass: empty for an empty stage. */
  function StageText(defines: seq<string>, stage: string): string {
    if stage == [] then "" else JoinLines(DefineDirectives(defines)) + stage
  }

  /** The vertex and fragment sources of the program `preprocess` builds. */
  datatype ShaderSources = ShaderSources(vertex: string, fragment: string)

  /** What `preprocess` returns (or the message it throws) and the include paths it appends. */
  datatype Preprocessing = Preprocessing(shader: Result<ShaderSources>, added: seq<string>)

  /** Each stage has its includes expanded from depth 0 and then its version line hoisted; the vertex stage goes first. */
  function Preprocessed(vertexShader: string, fragmentShader: string, searchPath: string, defines: seq<string>,
                        read: string -> string, matchInclude: string -> Option<string>): Preprocessing
  {
    var v := Expand(StageText(defines, vertexShader), searchPath, read, matchInclude, 0);
    if v.output.Err? then Preprocessing(Err(v.output.message), v.added)
    else
      var f := Expand(StageText(defines, fragmentShader), searchPath, read, matchInclude, 0);
      if f.output.Err? then Preprocessing(Err(f.output.message), v.added + f.added)
      else Preprocessing(Ok(ShaderSources(VersionHoisted(v.output.value), VersionHoisted(f.output.value))), v.added + f.added)
  }

  lemma DefineDirectivesSnoc(defines: seq<string>, i: nat)
    requires i < |defines|
    ensures JoinLines(DefineDirectives(defines[..i + 1])) == JoinLines(DefineDirectives(defines[..i])) + "#define " + defines[i] + "\n"
  {
    var d := DefineDirectives(defines[..i + 1]);
    assert d[..|d| - 1] == DefineDirectives(defines[..i]);
  }

  method Preprocess(vertexShader: string, fragmentShader: string, searchPath: string, defines: seq<string>,
                    read: string -> string, matchInclude: string -> Option<string>, includes: seq<string>)
    returns (shader: Result<ShaderSources>, includes': seq<string>)
    ensures shader == Preprocessed(vertexShader, fragmentShader, searchPath, defines, read, matchInclude).shader
    ensures includes' == includes + Preprocessed(vertexShader, fragmentShader, searchPath, defines, read, matchInclude).added
  {
    var vertex, fragment := "", "";
    for i := 0 to |defines|
      invariant vertex == if vertexShader == [] then "" else JoinLines(DefineDirectives(defines[..i]))
      invariant fragment == if fragmentShader == [] then "" else JoinLines(DefineDirectives(defines[..i]))
    {
      DefineDirectivesSnoc(defines, i);
      if |vertexShader| > 0 { vertex := vertex + "#define " + defines[i] + "\n"; }
      if |fragmentShader| > 0 { fragment := fragment + "#define " + defines[i] + "\n"; }
    }
    assert defines[..|defines|] == defines;
    if |vertexShader| > 0 { vertex := vertex + vertexShader; }
    if |fragmentShader| > 0 { fragment := fragment + fragmentShader; }
    var v, f;
    v, includes' := PreprocessIncludes(vertex, searchPath, read, matchInclude, includes, 0);
    if v.Err? {
      return Err(v.message), includes';
    }
    f, includes' := PreprocessIncludes(fragment, searchPath, read, matchInclude, includes', 0);
    AppendAssoc(includes, Expand(vertex, searchPath, read, matchInclude, 0).added, Expand(fragment, searchPath, read, matchInclude, 0).added);
    if f.Err? {
      return Err(f.message), includes';
    }
    var vs := PreprocessVersion(v.value);
    var fs := PreprocessVersion(f.value);
    shader := Ok(ShaderSources(vs, fs));
  }

  lemma DirectiveNoNewline(d: string)
    requires NoNewline(d)
    ensures NoNewline("#define " + d)
  {
    var m := "#define " + d;
    assert forall i :: 0 <= i < |m| ==> m[i] != '\n' by {
      forall i | 0 <= i < |m| ensures m[i] != '\n' {
        if i >= 8 { assert m[i] == d[i - 8]; }
      }
    }
  }

  /**
   * A non-empty stage starts with one `#define` line per define, in order, followed by the
   * stage's own lines; an empty stage stays empty whatever the defines.
   */
  lemma StageTextLines(defines: seq<string>, stage: string)
    requires forall i :: 0 <= i < |defines| ==> NoNewline(defines[i])
    ensures stage == [] ==> StageText(defines, stage) == ""
    ensures stage != [] ==> Lines(StageText(defines, stage)) == DefineDirectives(defines) + Lines(stage)
  {
    var ds := DefineDirectives(defines);
    forall i | 0 <= i < |ds| ensures NoNewline(ds[i]) {
      DirectiveNoNewline(defines[i]);
    }
    JoinLinesThenLines(ds, stage);
  }

  /** Every include path `preprocess` appends lies under the search path. */
  lemma PreprocessedAddsUnderSearchPath(vertexShader: string, fragmentShader: string, searchPath: string, defines: seq<string>,
                                        read: string -> string, matchInclude: string -> Option<string>)
    ensures UnderSearchPath(Preprocessed(vertexShader, fragmentShader, searchPath, defines, read, matchInclude).added, searchPath)
  {
    var vt, ft := StageText(defines, vertexShader), StageText(defines, fragmentShader);
    ExpandAddsUnderSearchPath(vt, searchPath, read, matchInclude, 0);
    ExpandAddsUnderSearchPath(ft, searchPath, read, matchInclude, 0);
    UnderSearchPathConcat(Expand(vt, searchPath, read, matchInclude, 0).added, Expand(ft, searchPath, read, matchInclude, 0).added, searchPath);
  }
}
