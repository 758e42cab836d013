/**
  The dependency-free configuration reader `parse_simple_yaml` and its scalar
  coercion `_coerce_value` (build/lib/churn_pipeline/utils.py). It reads an
  indentation-structured list of `key: value` lines into nested mappings; it
  has no lists, no quoting and no flow style.

  The source keeps a stack of the dictionaries currently open, each of which
  is also stored inside its parent. Only the top of that stack is ever
  written, so each open dictionary is always the one reached from the root by
  the keys under which the open dictionaries were created. The model keeps
  those keys (`path`) instead of the aliased dictionaries, and writes into
  the mapping at the end of the path.
 */
module SimpleYaml {
  import opened Base
  import opened Text

  /** A parsed configuration value: a coerced scalar or a nested mapping. */
  datatype Value =
    | Bool(b: bool)
    | Int(i: int)
    | Float(r: real)
    | Str(s: string)
    | Mapping(m: map<string, Value>)

  /** `_coerce_value`: booleans by keyword, then int or float by shape, else the text itself. */
  function CoerceValue(value: string): (v: Value)
    ensures !v.Mapping?
    ensures v == Bool(true) <==> AsciiLower(value) in {"true", "yes"}
    ensures v == Bool(false) <==> AsciiLower(value) in {"false", "no"}
    ensures v.Str? ==> v.s == value
    ensures v.Int? ==> '.' !in value && ParseInt(value) == Some(v.i)
    ensures v.Float? ==> '.' in value && ParseDecimal(value) == Some(v.r)
    ensures v.Str? <==>
      AsciiLower(value) !in {"true", "yes", "false", "no"}
      && (if '.' in value then ParseDecimal(value).None? else ParseInt(value).None?)
  {
    var lowered := AsciiLower(value);
    if lowered in {"true", "yes"} then Bool(true)
    else if lowered in {"false", "no"} then Bool(false)
    else if '.' in value then
      match ParseDecimal(value)
      case Some(r) => Float(r)
      case None => Str(value)
    else
      match ParseInt(value)
      case Some(i) => Int(i)
      case None => Str(value)
  }

  /** Integer text written by `str(n)` reads back as that integer. */
  lemma CoerceIntText(n: int)
    ensures CoerceValue(IntToString(n)) == Int(n)
  {
    IntToStringRoundTrip(n);
    var s := IntToString(n);
    assert s[0] == '-' || IsDigit(s[0]);
    assert AsciiLower(s)[0] == s[0];
  }

  /** True when following `path` from `m` passes only through nested mappings. */
  predicate ValidPath(m: map<string, Value>, path: seq<string>)
    decreases |path|
  {
    path == [] || (path[0] in m && m[path[0]].Mapping? && ValidPath(m[path[0]].m, path[1..]))
  }

  /** The mapping reached from `m` by the keys of `path`. */
  function Lookup(m: map<string, Value>, path: seq<string>): map<string, Value>
    requires ValidPath(m, path)
    decreases |path|
  {
    if path == [] then m else Lookup(m[path[0]].m, path[1..])
  }

  /**
    `r` agrees with `m` off the way to `key`: at each level along `path`,
    every entry other than the one the path (or, at its end, `key`) goes
    through is the same.
   */
  predicate UnchangedOffPath(m: map<string, Value>, r: map<string, Value>, path: seq<string>, key: string)
    requires ValidPath(m, path) && ValidPath(r, path)
    decreases |path|
  {
    var through := if path == [] then key else path[0];
    && (forall k :: k in m && k != through ==> k in r && r[k] == m[k])
    && (path != [] ==> UnchangedOffPath(m[path[0]].m, r[path[0]].m, path[1..], key))
  }

  /** `stack[-1][key] = v`: stores `v` under `key` in the mapping at the end of `path`. */
  function SetAt(m: map<string, Value>, path: seq<string>, key: string, v: Value): (r: map<string, Value>)
    requires ValidPath(m, path)
    ensures ValidPath(r, path)
    ensures Lookup(r, path) == Lookup(m, path)[key := v]
    ensures r.Keys == m.Keys + {if path == [] then key else path[0]}
    ensures UnchangedOffPath(m, r, path, key)
    decreases |path|
  {
    if path == [] then m[key := v]
    else m[path[0] := Mapping(SetAt(m[path[0]].m, path[1..], key, v))]
  }

  lemma {:induction false} ValidPrefix(m: map<string, Value>, path: seq<string>, k: nat)
    requires ValidPath(m, path) && k <= |path|
    ensures ValidPath(m, path[..k])
    decreases |path|
  {
    if k > 0 {
      assert path[..k][1..] == path[1..][..k - 1];
      ValidPrefix(m[path[0]].m, path[1..], k - 1);
    }
  }

  lemma {:induction false} LookupExtend(m: map<string, Value>, path: seq<string>, key: string)
    requires ValidPath(m, path) && key in Lookup(m, path) && Lookup(m, path)[key].Mapping?
    ensures ValidPath(m, path + [key])
    ensures Lookup(m, path + [key]) == Lookup(m, path)[key].m
    decreases |path|
  {
    if path != [] {
      assert (path + [key])[1..] == path[1..] + [key];
      LookupExtend(m[path[0]].m, path[1..], key);
    }
  }

  /** The parser's state: the root mapping, the keys of the open mappings, and their indentation levels. */
  datatype Parser = Parser(root: map<string, Value>, path: seq<string>, indents: seq<int>)

  /**
    The stack and indent lists have equal length (here: one more level than
    keys), the root's level 0 is never removed, and every open mapping exists.
   */
  predicate Valid(p: Parser) {
    |p.indents| == |p.path| + 1 && p.indents[0] == 0 && ValidPath(p.root, p.path)
  }

  const Start: Parser := Parser(map[], [], [0])

  /** A line the parser ignores: empty after stripping, or a comment. */
  predicate Skipped(line: string) {
    var stripped := Strip(line);
    stripped == [] || stripped[0] == '#'
  }

  /** A line's indentation, stripped key and stripped value (split at the first ':'). */
  function LineParts(line: string): (nat, string, string) {
    var parts := Partition(Strip(line), ':');
    (LeadingSpaces(line), Strip(parts.0), Strip(parts.1))
  }

  /** How many levels stay open: levels are closed while the line is indented less than the innermost one. */
  function Kept(indents: seq<int>, indent: nat): (k: nat)
    requires |indents| >= 1 && indents[0] == 0
    ensures 1 <= k <= |indents|
    ensures indent >= indents[k - 1]
    ensures forall j :: k <= j < |indents| ==> indent < indents[j]
    decreases |indents|
  {
    if |indents| > 0 && indent < indents[|indents| - 1] then Kept(indents[..|indents| - 1], indent)
    else |indents|
  }

  /** One iteration of the loop over lines. */
  function Step(p: Parser, line: string): (q: Parser)
    requires Valid(p)
    ensures Valid(q)
  {
    if Skipped(line) then p
    else
      var parts := LineParts(line);
      var k := Kept(p.indents, parts.0);
      ValidPrefix(p.root, p.path, k - 1);
      var kept := Parser(p.root, p.path[..k - 1], p.indents[..k]);
      assert Valid(kept);
      Write(Parser(p.root, p.path[..k - 1], p.indents[..k]), parts.0, parts.1, parts.2)
  }

  /** After closing levels: open a fresh mapping for an empty value, or store the coerced value. */
  function Write(p: Parser, indent: nat, key: string, value: string): (q: Parser)
    requires Valid(p)
    ensures Valid(q)
  {
    if value == "" then
      var root := SetAt(p.root, p.path, key, Mapping(map[]));
      LookupExtend(root, p.path, key);
      Parser(root, p.path + [key], p.indents + [indent + 2])
    else
      Parser(SetAt(p.root, p.path, key, CoerceValue(value)), p.path, p.indents)
  }

  /** The loop over all lines, from state `p`. */
  function Run(p: Parser, lines: seq<string>): (q: Parser)
    requires Valid(p)
    ensures Valid(q)
    decreases |lines|
  {
    if lines == [] then p else Run(Step(p, lines[0]), lines[1..])
  }

  /** The mapping `parse_simple_yaml(text)` returns. */
  function ParsedDocument(text: string): map<string, Value> {
    Run(Start, SplitLines(text)).root
  }

  /**
    The inner loop of `parse_simple_yaml`: pops the stack and the indent list
    together while the line is indented less than the innermost level.
   */
  method CloseLevels(path0: seq<string>, indents0: seq<int>, indent: nat)
    returns (path: seq<string>, indents: seq<int>)
    requires |indents0| == |path0| + 1 && indents0[0] == 0
    ensures var k := Kept(indents0, indent); path == path0[..k - 1] && indents == indents0[..k]
  {
    path, indents := path0, indents0;
    while |indents| > 0 && indent < indents[|indents| - 1]
      invariant 1 <= |indents| <= |indents0| && |path| == |indents| - 1
      invariant path == path0[..|path|] && indents == indents0[..|indents|]
      invariant Kept(indents, indent) == Kept(indents0, indent)
      decreases |indents|
    {
      path := path[..|path| - 1];
      indents := indents[..|indents| - 1];
    }
  }

  /** `parse_simple_yaml`: the loop over lines, popping and pushing the open mappings. */
  method ParseSimpleYaml(text: string) returns (root: map<string, Value>)
    ensures root == ParsedDocument(text)
  {
    root := map[];
    var path: seq<string> := [];
    var indents: seq<int> := [0];
    var lines := SplitLines(text);
    for n := 0 to |lines|
      invariant Valid(Parser(root, path, indents))
      invariant Run(Parser(root, path, indents), lines[n..]) == Run(Start, lines)
    {
      ghost var before := Parser(root, path, indents);
      ghost var after := Step(before, lines[n]);
      assert lines[n..][1..] == lines[n + 1..];
      assert Run(after, lines[n + 1..]) == Run(Start, lines);
      var rawLine := lines[n];
      var stripped := Strip(rawLine);
      if stripped == [] || stripped[0] == '#' {
        continue;
      }
      var indent := LeadingSpaces(rawLine);
      var parts := Partition(stripped, ':');
      var key := Strip(parts.0);
      var value := Strip(parts.1);
      path, indents := CloseLevels(path, indents, indent);
      ValidPrefix(root, before.path, |path|);
      assert after == Write(Parser(root, path, indents), indent, key, value);
      if value == "" {
        root := SetAt(root, path, key, Mapping(map[]));
        path := path + [key];
        indents := indents + [indent + 2];
        continue;
      }
      root := SetAt(root, path, key, CoerceValue(value));
    }
  }

  /** Running over two blocks of lines is running over the first, then the second. */
  lemma {:induction false} RunAppend(p: Parser, a: seq<string>, b: seq<string>)
    requires Valid(p)
    ensures Run(p, a + b) == Run(Run(p, a), b)
    decreases |a|
  {
    if a == [] {
      assert a + b == b;
    } else {
      assert (a + b)[1..] == a[1..] + b;
      RunAppend(Step(p, a[0]), a[1..], b);
    }
  }

  /** Blank lines and comment lines, wherever they stand, do not change the result. */
  lemma SkippedLineIgnored(p: Parser, a: seq<string>, line: string, b: seq<string>)
    requires Valid(p) && Skipped(line)
    ensures Run(p, a + [line] + b) == Run(p, a + b)
  {
    RunAppend(p, a, [line] + b);
    assert a + [line] + b == a + ([line] + b);
    assert ([line] + b)[1..] == b;
    RunAppend(p, a, b);
  }

  /**
    A line splits at its first ':' into a stripped key and a stripped value;
    a line without ':' is all key, with an empty value.
   */
  lemma LinePartsSplit(line: string)
    ensures var (indent, key, value) := LineParts(line);
      && indent == LeadingSpaces(line)
      && (':' !in Strip(line) ==> key == Strip(line) && value == "")
      && (':' in Strip(line) ==> exists before, after ::
            Strip(line) == before + ":" + after && ':' !in before
            && key == Strip(before) && value == Strip(after))
  {
    var stripped := Strip(line);
    PartitionSplit(stripped, ':');
    StripIdempotent(line);
    var parts := Partition(stripped, ':');
    if ':' in stripped {
      assert stripped == parts.0 + ":" + parts.1;
    }
  }

  /**
    An empty value stores a fresh empty mapping under the key in the current
    mapping (after closing deeper levels), makes it the current mapping, and
    records the line's indentation plus two as its level.
   */
  lemma StepOpensMapping(p: Parser, line: string)
    requires Valid(p) && !Skipped(line) && LineParts(line).2 == ""
    ensures var (indent, key, _) := LineParts(line);
      var k := Kept(p.indents, indent);
      var q := Step(p, line);
      && q.path == p.path[..k - 1] + [key]
      && q.indents == p.indents[..k] + [indent + 2]
      && ValidPath(p.root, p.path[..k - 1]) && ValidPath(q.root, p.path[..k - 1])
      && Lookup(q.root, p.path[..k - 1]) == Lookup(p.root, p.path[..k - 1])[key := Mapping(map[])]
      && UnchangedOffPath(p.root, q.root, p.path[..k - 1], key)
      && Lookup(q.root, q.path) == map[]
  {
    var (indent, key, _) := LineParts(line);
    var k := Kept(p.indents, indent);
    ValidPrefix(p.root, p.path, k - 1);
    var root := SetAt(p.root, p.path[..k - 1], key, Mapping(map[]));
    LookupExtend(root, p.path[..k - 1], key);
  }

  /**
    A non-empty value is coerced and stored under the key in the current
    mapping, replacing any earlier value of that key; the open levels are
    those left after closing deeper ones.
   */
  lemma StepAssigns(p: Parser, line: string)
    requires Valid(p) && !Skipped(line) && LineParts(line).2 != ""
    ensures var (indent, key, value) := LineParts(line);
      var k := Kept(p.indents, indent);
      var q := Step(p, line);
      && q.path == p.path[..k - 1]
      && q.indents == p.indents[..k]
      && ValidPath(p.root, q.path)
      && Lookup(q.root, q.path) == Lookup(p.root, q.path)[key := CoerceValue(value)]
      && UnchangedOffPath(p.root, q.root, q.path, key)
  {
    var (indent, key, value) := LineParts(line);
    var k := Kept(p.indents, indent);
    ValidPrefix(p.root, p.path, k - 1);
  }

  /** Of two lines with the same key at the same indentation, the later value wins. */
  lemma RepeatedKeyOverwrites(p: Parser, first: string, second: string)
    requires Valid(p) && !Skipped(first) && !Skipped(second)
    requires LineParts(first).0 == LineParts(second).0 && LineParts(first).1 == LineParts(second).1
    requires LineParts(first).2 != "" && LineParts(second).2 != ""
    ensures var q := Step(Step(p, first), second);
      ValidPath(q.root, q.path)
      && Lookup(q.root, q.path)[LineParts(second).1] == CoerceValue(LineParts(second).2)
      && q.path == Step(p, first).path
  {
    StepAssigns(p, first);
    var mid := Step(p, first);
    var indent := LineParts(second).0;
    assert Kept(mid.indents, indent) == |mid.indents|;
    StepAssigns(mid, second);
  }
}
