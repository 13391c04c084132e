/** The ignore rules of src/treehash.c: how a line is read, and the rule stack against a stateless verdict. */
module Gitignore {
  import opened Bytes

  /** fnmatch(pattern, text, pathname ? FNM_PATHNAME : 0) == 0, which the model leaves open. */
  type Fnmatch = (bytes, bytes, bool) -> bool

  /** What one line of a .gitignore file says. */
  datatype Spec = Spec(pattern: bytes, negated: bool, dirOnly: bool, anchored: bool)

  /** struct IgnoreRule: the same, with the directory that holds the file. */
  datatype Rule = Rule(spec: Spec, dirRel: bytes, depth: nat)

  const BANG: byte := 33

  predicate LineEnd(c: byte) { c == CR || c == LF || Blank(c) }

  function TrimEnd(line: bytes): bytes {
    if line != [] && LineEnd(line[|line| - 1]) then TrimEnd(line[..|line| - 1]) else line
  }

  /** The last part of a line: what is left between the exclamation mark and the trailing slash. */
  function ParseBody(negated: bool, dirOnly: bool, body: bytes): (r: seq<Spec>)
    ensures |r| <= 1
  {
    if body == [] then []
    else if body[0] == SLASH then [Spec(body[1..], negated, dirOnly, true)]
    else [Spec(body, negated, dirOnly, SLASH in body)]
  }

  function ParsePattern(negated: bool, pat: bytes): (r: seq<Spec>)
    ensures |r| <= 1
  {
    if pat == [] then []
    else if pat[|pat| - 1] == SLASH then ParseBody(negated, true, pat[..|pat| - 1])
    else ParseBody(negated, false, pat)
  }

  function ParseText(line: bytes): (r: seq<Spec>)
    ensures |r| <= 1
  {
    var trimmed := SkipBlanks(line);
    if trimmed == [] || trimmed[0] == HASH then []
    else if line[0] == BANG then ParsePattern(true, line[1..])
    else ParsePattern(false, line)
  }

  /** The body of the getline loop of load_gitignore: zero rules or one. */
  function ParseLine(raw: bytes): (r: seq<Spec>)
    ensures |r| <= 1
  {
    ParseText(CString(TrimEnd(raw)))
  }

  /** Blanks before the hash do not make a line a pattern. */
  lemma IndentedComment()
    ensures ParseLine([SPACE, HASH, 120, LF]) == []
  {
    var raw: bytes := [SPACE, HASH, 120, LF];
    var text: bytes := [SPACE, HASH, 120];
    assert raw[..3] == text && TrimEnd(raw) == text;
    assert text[1..] == [HASH, 120] && text[1..][1..] == [120] && text[1..][1..][1..] == [];
    assert CString([120]) == [120] && CString([HASH, 120]) == [HASH, 120] && CString(text) == text;
    assert SkipBlanks(text) == [HASH, 120];
  }

  predicate LineEnds(end: bytes) {
    forall c | c in end :: LineEnd(c)
  }

  /** Line ends and blanks at the end go, and nothing else. */
  lemma {:induction false} TrimmedAway(x: bytes, end: bytes)
    requires LineEnds(end) && (x == [] || !LineEnd(x[|x| - 1]))
    ensures TrimEnd(x + end) == x
  {
    if end == [] {
      assert x + end == x;
    } else {
      var n := |end| - 1;
      assert end[n] in end && (x + end)[..|x + end| - 1] == x + end[..n];
      TrimmedAway(x, end[..n]);
    }
  }

  lemma {:induction false} TrimParts(raw: bytes)
    ensures TrimEnd(raw) <= raw && LineEnds(raw[|TrimEnd(raw)|..])
    ensures TrimEnd(raw) != [] ==> !LineEnd(TrimEnd(raw)[|TrimEnd(raw)| - 1])
  {
    if raw != [] && LineEnd(raw[|raw| - 1]) {
      var n := |raw| - 1;
      TrimParts(raw[..n]);
      assert raw[|TrimEnd(raw)|..] == raw[..n][|TrimEnd(raw)|..] + [raw[n]];
    }
  }

  /** A line put together from its parts: an exclamation mark, a leading slash, a body, a trailing slash, an end. */
  function Composed(neg: bool, lead: bool, body: bytes, dir: bool): bytes {
    (if neg then [BANG] else []) + (if lead then [SLASH] else []) + body + (if dir then [SLASH] else [])
  }

  /** Parts that can be told apart again. */
  predicate Parts(neg: bool, lead: bool, body: bytes, dir: bool) {
    && NulFree(body)
    && (!lead || !dir ==> body != [])
    && (!lead ==> body[0] != SLASH)
    && (!dir ==> body[|body| - 1] != SLASH && !LineEnd(body[|body| - 1]))
    && (!neg && !lead ==> body[0] != BANG && !Comment(Composed(neg, lead, body, dir)))
  }

  function Stem(lead: bool, body: bytes): bytes {
    (if lead then [SLASH] else []) + body
  }

  function Pattern(lead: bool, body: bytes, dir: bool): bytes {
    Stem(lead, body) + if dir then [SLASH] else []
  }

  lemma BodyMeans(neg: bool, lead: bool, body: bytes, dir: bool)
    requires lead || (body != [] && body[0] != SLASH)
    ensures ParseBody(neg, dir, Stem(lead, body)) == [Spec(body, neg, dir, lead || SLASH in body)]
  {
    assert lead ==> Stem(lead, body)[1..] == body;
    assert !lead ==> Stem(lead, body) == body;
  }

  lemma PatternMeans(neg: bool, lead: bool, body: bytes, dir: bool)
    requires dir || (body != [] && body[|body| - 1] != SLASH)
    ensures ParsePattern(neg, Pattern(lead, body, dir)) == ParseBody(neg, dir, Stem(lead, body))
  {
    hide ParseBody;
    var pat := Pattern(lead, body, dir);
    assert dir ==> pat[..|pat| - 1] == Stem(lead, body);
    assert !dir ==> pat == Stem(lead, body);
  }

  lemma LastIsNoBlank(neg: bool, lead: bool, body: bytes, dir: bool)
    requires Parts(neg, lead, body, dir)
    ensures var line := Composed(neg, lead, body, dir);
      line != [] && !LineEnd(line[|line| - 1]) && !AllBlank(line)
  {
    var line := Composed(neg, lead, body, dir);
    assert line[|line| - 1] == if dir then SLASH else body[|body| - 1];
  }

  lemma FirstIsNoHash(neg: bool, lead: bool, body: bytes, dir: bool)
    requires Parts(neg, lead, body, dir)
    ensures var line := Composed(neg, lead, body, dir);
      !Comment(line) && (!neg ==> line == Pattern(lead, body, dir) && line[0] != BANG)
  {
    var line := Composed(neg, lead, body, dir);
    assert !neg ==> line == Pattern(lead, body, dir);
    if neg || lead {
      assert !Blank(line[0]) && line[0] != HASH;
    }
  }

  lemma TextMeans(neg: bool, lead: bool, body: bytes, dir: bool)
    requires Parts(neg, lead, body, dir)
    ensures ParseText(Composed(neg, lead, body, dir)) == ParsePattern(neg, Pattern(lead, body, dir))
  {
    var line, pat := Composed(neg, lead, body, dir), Pattern(lead, body, dir);
    SkipBlanksMeans(line);
    assert line == (if neg then [BANG] else []) + pat && pat != [];
    hide ParsePattern, SkipBlanks, Pattern, Composed;
    assert neg ==> line[1..] == pat;
    assert !neg ==> line == pat;
    LastIsNoBlank(neg, lead, body, dir);
    FirstIsNoHash(neg, lead, body, dir);
  }

  lemma ComposedNulFree(neg: bool, lead: bool, body: bytes, dir: bool)
    requires NulFree(body)
    ensures NulFree(Composed(neg, lead, body, dir))
  {
    forall c | c in Composed(neg, lead, body, dir)
      ensures c == BANG || c == SLASH || c in body
    {
    }
  }

  lemma PartsOfText(neg: bool, lead: bool, body: bytes, dir: bool)
    requires Parts(neg, lead, body, dir)
    ensures NulFree(body) && (lead || (body != [] && body[0] != SLASH))
    ensures dir || (body != [] && body[|body| - 1] != SLASH)
  {
  }

  /** What a line means, part by part. */
  lemma LineMeans(neg: bool, lead: bool, body: bytes, dir: bool, end: bytes)
    requires Parts(neg, lead, body, dir) && LineEnds(end)
    ensures ParseLine(Composed(neg, lead, body, dir) + end) == [Spec(body, neg, dir, lead || SLASH in body)]
  {
    hide TrimEnd, CString, ParseText, ParsePattern, ParseBody, Composed, Parts, Pattern, Stem, LineEnds;
    var line := Composed(neg, lead, body, dir);
    PartsOfText(neg, lead, body, dir);
    LastIsNoBlank(neg, lead, body, dir);
    ComposedNulFree(neg, lead, body, dir);
    TextMeans(neg, lead, body, dir);
    PatternMeans(neg, lead, body, dir);
    BodyMeans(neg, lead, body, dir);
    TrimmedAway(line, end);
    WholeCString(line);
  }

  /** A line without rule: blank, a comment, or an exclamation mark and a slash with nothing to say. */
  predicate Idle(line: bytes) {
    AllBlank(line) || Comment(line) || line == [BANG] || line == [SLASH] || line == [BANG, SLASH]
  }

  lemma IdlePattern(neg: bool, pat: bytes)
    ensures ParsePattern(neg, pat) == [] <==> pat == [] || pat == [SLASH]
  {
    if pat != [] && pat[|pat| - 1] == SLASH {
      assert pat == pat[..|pat| - 1] + [SLASH];
    }
  }

  lemma SkipOfNothing()
    ensures SkipBlanks([]) == []
  {
  }

  lemma {:induction false} NoRuleExactly(raw: bytes)
    ensures ParseLine(raw) == [] <==> Idle(CString(TrimEnd(raw)))
  {
    var line := CString(TrimEnd(raw));
    SkipBlanksMeans(line);
    SkipOfNothing();
    hide TrimEnd, CString, SkipBlanks, ParsePattern;
    if SkipBlanks(line) != [] && SkipBlanks(line)[0] != HASH {
      var pat := if line[0] == BANG then line[1..] else line;
      IdlePattern(line[0] == BANG, pat);
      assert line == if line[0] == BANG then [BANG] + pat else pat;
    }
  }

  lemma PatternHasParts(pat: bytes) returns (lead: bool, body: bytes, dir: bool)
    requires pat != [] && pat != [SLASH]
    ensures pat == Pattern(lead, body, dir) && Stem(lead, body) != [] && (!lead ==> body[0] != SLASH)
    ensures !dir ==> pat[|pat| - 1] != SLASH
  {
    dir := pat[|pat| - 1] == SLASH;
    var stem := if dir then pat[..|pat| - 1] else pat;
    assert pat == stem + if dir then [SLASH] else [];
    lead := stem[0] == SLASH;
    body := if lead then stem[1..] else stem;
    assert stem == Stem(lead, body);
  }

  lemma ComposedOfPattern(neg: bool, lead: bool, body: bytes, dir: bool)
    ensures Composed(neg, lead, body, dir) == (if neg then [BANG] else []) + Pattern(lead, body, dir)
  {
  }

  lemma PatternEnds(lead: bool, body: bytes, dir: bool)
    requires Stem(lead, body) != []
    ensures var pat := Pattern(lead, body, dir);
      && (!lead ==> pat[0] == body[0])
      && (body != [] && !dir ==> pat[|pat| - 1] == body[|body| - 1])
      && (body == [] && !dir ==> pat[|pat| - 1] == SLASH)
      && forall c | c in body :: c in pat
  {
  }

  /** Taking a text apart. */
  lemma TextHasParts(line: bytes) returns (neg: bool, lead: bool, body: bytes, dir: bool)
    requires NulFree(line) && line != [] && !LineEnd(line[|line| - 1]) && !Idle(line)
    ensures Parts(neg, lead, body, dir) && line == Composed(neg, lead, body, dir)
  {
    hide Comment, AllBlank, LineEnd, Pattern, Composed;
    neg := line[0] == BANG;
    var pat := if neg then line[1..] else line;
    assert line == (if neg then [BANG] else []) + pat && pat != [];
    lead, body, dir := PatternHasParts(pat);
    ComposedOfPattern(neg, lead, body, dir);
    PatternEnds(lead, body, dir);
    assert forall c | c in pat :: c in line;
    assert line[|line| - 1] == pat[|pat| - 1];
  }

  /** Every line with a rule is put together from such parts, so LineMeans says what it means. */
  lemma LineHasParts(raw: bytes) returns (neg: bool, lead: bool, body: bytes, dir: bool, end: bytes)
    requires NulFree(raw) && ParseLine(raw) != []
    ensures Parts(neg, lead, body, dir) && LineEnds(end) && raw == Composed(neg, lead, body, dir) + end
  {
    var line := TrimEnd(raw);
    TrimParts(raw);
    end := raw[|line|..];
    assert raw == line + end;
    assert forall c | c in line :: c in raw;
    WholeCString(line);
    NoRuleExactly(raw);
    hide TrimEnd, CString, ParseLine, Composed, Parts;
    assert line != [] by { assert AllBlank([]); }
    neg, lead, body, dir := TextHasParts(line);
  }

  function ParseRules(content: bytes): seq<Spec>
    decreases |content|
  {
    if content == [] then []
    else
      var n := LineLength(content);
      ParseLine(content[..n]) + ParseRules(content[n..])
  }

  /** The rules of a file of lines, one line after the other. */
  function RulesOfLines(lines: seq<bytes>): seq<Spec> {
    if lines == [] then [] else ParseLine(lines[0] + [LF]) + RulesOfLines(lines[1..])
  }

  function LinesText(lines: seq<bytes>): bytes {
    if lines == [] then [] else lines[0] + [LF] + LinesText(lines[1..])
  }

  lemma {:induction false} LineLengthIs(line: bytes, rest: bytes)
    requires LF !in line
    ensures LineLength(line + [LF] + rest) == |line| + 1
    ensures line != [] ==> LineLength(line) == |line|
  {
    var s := line + [LF] + rest;
    if line != [] {
      assert line[0] in line;
      LineLengthIs(line[1..], rest);
      assert s[1..] == line[1..] + [LF] + rest;
      if |line| == 1 {
        assert LineLength(line[1..]) == 0;
      }
    }
  }

  /** A file is read line by line, in order, with or without a line feed at its end. */
  lemma {:induction false} RulesInOrder(lines: seq<bytes>, last: bytes)
    requires (forall i :: 0 <= i < |lines| ==> LF !in lines[i]) && LF !in last
    ensures ParseRules(LinesText(lines) + last)
      == RulesOfLines(lines) + if last == [] then [] else ParseLine(last)
  {
    hide ParseLine, LineLength;
    if lines == [] {
      assert LinesText(lines) + last == last;
      if last != [] {
        LineLengthIs(last, []);
        assert last[..|last|] == last && last[|last|..] == [];
        assert ParseRules(last) == ParseLine(last) + ParseRules([]);
      }
    } else {
      var rest := LinesText(lines[1..]) + last;
      var s := LinesText(lines) + last;
      assert s == lines[0] + [LF] + rest;
      LineLengthIs(lines[0], rest);
      RulesInOrder(lines[1..], last);
      assert s[..|lines[0]| + 1] == lines[0] + [LF] && s[|lines[0]| + 1..] == rest;
    }
  }

  /** Path components as directory entries have them. */
  predicate ValidName(name: bytes) {
    name != [] && SLASH !in name && NulFree(name)
  }

  predicate ValidNames(comps: seq<bytes>) {
    forall c | c in comps :: ValidName(c)
  }

  function Join(comps: seq<bytes>): bytes {
    JoinWith(SLASH, comps)
  }

  lemma JoinOfConcat(a: seq<bytes>, b: seq<bytes>)
    requires a != [] && b != []
    ensures Join(a + b) == Join(a) + [SLASH] + Join(b)
  {
    JoinWithOfConcat(SLASH, a, b);
  }

  lemma {:induction false} JoinNonempty(comps: seq<bytes>)
    requires comps != [] && ValidNames(comps)
    ensures Join(comps) != []
  {
    assert comps[0] in comps;
  }

  function UpToSlash(s: bytes): bytes {
    if s == [] || s[0] == SLASH then [] else [s[0]] + UpToSlash(s[1..])
  }

  lemma {:induction false} UpToSlashStops(s: bytes, t: bytes)
    requires SLASH !in s && (t == [] || t[0] == SLASH)
    ensures UpToSlash(s + t) == s
  {
    if s == [] {
      assert s + t == t;
    } else {
      assert (s + t)[1..] == s[1..] + t;
      UpToSlashStops(s[1..], t);
    }
  }

  lemma FirstComponent(a: seq<bytes>)
    requires a != [] && ValidNames(a)
    ensures UpToSlash(Join(a)) == a[0]
  {
    hide UpToSlash;
    assert ValidName(a[0]) by { assert a[0] in a; }
    var rest := if |a| == 1 then [] else [SLASH] + Join(a[1..]);
    UpToSlashStops(a[0], rest);
    assert Join(a) == a[0] + rest;
  }

  /** No two paths below one directory are spelled alike. */
  lemma {:induction false} JoinIsInjective(a: seq<bytes>, b: seq<bytes>)
    requires ValidNames(a) && ValidNames(b) && Join(a) == Join(b)
    ensures a == b
  {
    if a == [] && b != [] {
      JoinNonempty(b);
    } else if a != [] && b == [] {
      JoinNonempty(a);
    } else if a != [] {
      assert a[0] in a && b[0] in b;
      FirstComponent(a);
      FirstComponent(b);
      assert UpToSlash(Join(a)) == a[0] == b[0];
      assert |Join(a)| == |a[0]| + (if |a| == 1 then 0 else 1 + |Join(a[1..])|);
      assert |Join(b)| == |b[0]| + (if |b| == 1 then 0 else 1 + |Join(b[1..])|);
      if |a| > 1 {
        assert Join(a)[|a[0]| + 1..] == Join(a[1..]);
        assert Join(b)[|b[0]| + 1..] == Join(b[1..]);
        JoinIsInjective(a[1..], b[1..]);
      }
      assert a == [a[0]] + a[1..] && b == [b[0]] + b[1..];
    }
  }

  /** What follows the last slash: strrchr as match_rule uses it. */
  function BaseName(rel: bytes): bytes {
    if rel == [] || rel[|rel| - 1] == SLASH then [] else BaseName(rel[..|rel| - 1]) + [rel[|rel| - 1]]
  }

  lemma {:induction false} BaseNameOfMore(s: bytes, c: byte)
    requires c != SLASH
    ensures BaseName(s + [c]) == BaseName(s) + [c]
  {
    assert (s + [c])[..|s|] == s;
  }

  lemma {:induction false} BaseNameStops(s: bytes, t: bytes)
    requires SLASH !in t && (s == [] || s[|s| - 1] == SLASH)
    ensures BaseName(s + t) == t
  {
    if t == [] {
      assert s + t == s;
    } else {
      var n := |t| - 1;
      BaseNameStops(s, t[..n]);
      BaseNameOfMore(s + t[..n], t[n]);
      hide BaseName;
      assert s + t == s + t[..n] + [t[n]];
      assert t == t[..n] + [t[n]];
    }
  }

  lemma BaseNameOfJoin(comps: seq<bytes>)
    requires comps != [] && ValidNames(comps)
    ensures BaseName(Join(comps)) == comps[|comps| - 1]
  {
    hide BaseName;
    var n := |comps| - 1;
    assert ValidName(comps[n]) by { assert comps[n] in comps; }
    if n == 0 {
      BaseNameStops([], comps[0]);
      assert [] + comps[0] == comps[0];
    } else {
      assert comps == comps[..n] + [comps[n]];
      JoinOfConcat(comps[..n], [comps[n]]);
      BaseNameStops(Join(comps[..n]) + [SLASH], comps[n]);
    }
  }

  /** Lines 573-588: the candidate below the rule's directory; empty where match_rule gives up. */
  function RelativeTo(dirRel: bytes, cand: bytes): bytes {
    var d := |dirRel|;
    if d == 0 then cand
    else if !(dirRel <= cand) || (d < |cand| && cand[d] != SLASH) then []
    else if d < |cand| then cand[d + 1..] else cand[d..]
  }

  predicate MatchRule(fm: Fnmatch, r: Rule, cand: bytes, isDir: bool) {
    var rel := RelativeTo(r.dirRel, cand);
    if r.spec.dirOnly && !isDir then false
    else if rel == [] then false
    else if r.spec.anchored then fm(r.spec.pattern, rel, true)
    else fm(r.spec.pattern, BaseName(rel), false) || fm(r.spec.pattern, rel, true)
  }

  /** What a line means for a path given by its components below the line's own directory. */
  predicate SpecMatches(fm: Fnmatch, spec: Spec, below: seq<bytes>, isDir: bool)
    requires below != []
  {
    && (spec.dirOnly ==> isDir)
    && (fm(spec.pattern, Join(below), true) || (!spec.anchored && fm(spec.pattern, below[|below| - 1], false)))
  }

  /** fnmatch as plain comparison of texts, where the whole path is asked for, or only the last component. */
  function SamePath(): Fnmatch {
    (pattern: bytes, text: bytes, pathname: bool) => pathname && pattern == text
  }

  function SameName(): Fnmatch {
    (pattern: bytes, text: bytes, pathname: bool) => !pathname && pattern == text
  }

  /**
   * Which texts a rule is compared with. As a whole path, every rule is; as a last component, only one that is
   * not anchored; and a rule with a trailing slash is compared with directories only.
   */
  lemma RuleComparesWith(spec: Spec, below: seq<bytes>, isDir: bool)
    requires below != []
    ensures SpecMatches(SamePath(), spec, below, isDir) <==> spec.pattern == Join(below) && (spec.dirOnly ==> isDir)
    ensures SpecMatches(SameName(), spec, below, isDir) <==>
      spec.pattern == below[|below| - 1] && !spec.anchored && (spec.dirOnly ==> isDir)
  {
    hide Join;
  }

  lemma SplitNames(comps: seq<bytes>, d: nat)
    requires ValidNames(comps) && d <= |comps|
    ensures comps == comps[..d] + comps[d..] && ValidNames(comps[..d]) && ValidNames(comps[d..])
  {
  }

  lemma RelativeToAncestor(above: seq<bytes>, below: seq<bytes>)
    requires ValidNames(above) && ValidNames(below) && below != []
    ensures RelativeTo(Join(above), Join(above + below)) == Join(below)
  {
    hide ValidNames;
    if above == [] {
      assert above + below == below;
    } else {
      JoinNonempty(above);
      JoinOfConcat(above, below);
      hide Join;
    }
  }

  /** A rule of an enclosing directory: the directory prefix test never rejects. */
  lemma RuleMeansSpec(fm: Fnmatch, r: Rule, comps: seq<bytes>, d: nat, isDir: bool)
    requires ValidNames(comps) && d < |comps| && r.dirRel == Join(comps[..d])
    ensures MatchRule(fm, r, Join(comps), isDir) <==> SpecMatches(fm, r.spec, comps[d..], isDir)
  {
    hide ValidNames, Join, BaseName, RelativeTo;
    SplitNames(comps, d);
    JoinNonempty(comps[d..]);
    BaseNameOfJoin(comps[d..]);
    RelativeToAncestor(comps[..d], comps[d..]);
  }

  /** is_path_ignored over the whole rule array: the last match decides. */
  predicate Verdict(fm: Fnmatch, rules: seq<Rule>, cand: bytes, isDir: bool) {
    rules != [] &&
    var last := rules[|rules| - 1];
    if MatchRule(fm, last, cand, isDir) then !last.spec.negated
    else Verdict(fm, rules[..|rules| - 1], cand, isDir)
  }

  predicate LastMatch(fm: Fnmatch, rules: seq<Rule>, cand: bytes, isDir: bool, i: nat) {
    && i < |rules| && MatchRule(fm, rules[i], cand, isDir)
    && forall j :: i < j < |rules| ==> !MatchRule(fm, rules[j], cand, isDir)
  }

  /** The last rule that matches decides; without a match nothing is ignored. */
  lemma {:induction false} LastMatchDecides(fm: Fnmatch, rules: seq<Rule>, cand: bytes, isDir: bool)
    ensures Verdict(fm, rules, cand, isDir)
      <==> exists i: nat :: LastMatch(fm, rules, cand, isDir, i) && !rules[i].spec.negated
  {
    hide MatchRule;
    if rules != [] {
      var n := |rules| - 1;
      LastMatchDecides(fm, rules[..n], cand, isDir);
      if MatchRule(fm, rules[n], cand, isDir) {
        assert LastMatch(fm, rules, cand, isDir, n);
      } else {
        forall i: nat
          ensures LastMatch(fm, rules, cand, isDir, i) <==> LastMatch(fm, rules[..n], cand, isDir, i)
        {
        }
      }
    }
  }

  method IsPathIgnored(fm: Fnmatch, rules: seq<Rule>, cand: bytes, isDir: bool) returns (ignored: bool)
    ensures ignored == Verdict(fm, rules, cand, isDir)
  {
    ignored := false;
    for i := 0 to |rules|
      invariant ignored == Verdict(fm, rules[..i], cand, isDir)
    {
      assert rules[..i + 1][..i] == rules[..i];
      if MatchRule(fm, rules[i], cand, isDir) {
        ignored := !rules[i].spec.negated;
      }
    }
    assert rules[..|rules|] == rules;
  }

  /**
   * The stateless verdict: scopes[d] are the lines of the .gitignore in the directory comps[..d]; the
   * innermost directory with a matching line decides, and in it the last such line.
   */
  predicate ScopedVerdict(fm: Fnmatch, scopes: seq<seq<Spec>>, comps: seq<bytes>, isDir: bool)
    requires |scopes| <= |comps|
    decreases |scopes|, 1
  {
    if scopes == [] then false
    else ScopeVerdict(fm, scopes, scopes[|scopes| - 1], comps, isDir)
  }

  /** The same, with only `lines` left to consider in the innermost directory. */
  predicate ScopeVerdict(fm: Fnmatch, scopes: seq<seq<Spec>>, lines: seq<Spec>, comps: seq<bytes>, isDir: bool)
    requires 0 < |scopes| <= |comps|
    decreases |scopes|, 0, |lines|
  {
    var d := |scopes| - 1;
    if lines == [] then ScopedVerdict(fm, scopes[..d], comps, isDir)
    else
      var last := lines[|lines| - 1];
      if SpecMatches(fm, last, comps[d..], isDir) then !last.negated
      else ScopeVerdict(fm, scopes, lines[..|lines| - 1], comps, isDir)
  }

  /** The rules a directory at depth d puts on the stack. */
  function Tag(lines: seq<Spec>, dirRel: bytes, d: nat): (rules: seq<Rule>)
    ensures |rules| == |lines|
    ensures forall i :: 0 <= i < |rules| ==> rules[i] == Rule(lines[i], dirRel, d)
  {
    seq(|lines|, i requires 0 <= i < |lines| => Rule(lines[i], dirRel, d))
  }

  /** The rule stack inside comps: outermost directory first, in line order. */
  function Stack(scopes: seq<seq<Spec>>, comps: seq<bytes>): (rules: seq<Rule>)
    requires |scopes| <= |comps| + 1
    ensures forall i :: 0 <= i < |rules| ==> rules[i].depth < |scopes|
  {
    if scopes == [] then []
    else
      var d := |scopes| - 1;
      Stack(scopes[..d], comps) + Tag(scopes[d], Join(comps[..d]), d)
  }

  lemma {:induction false} StackOfPrefix(scopes: seq<seq<Spec>>, comps: seq<bytes>, longer: seq<bytes>)
    requires |scopes| <= |comps| + 1 && comps <= longer
    ensures Stack(scopes, comps) == Stack(scopes, longer)
  {
    if scopes != [] {
      var d := |scopes| - 1;
      StackOfPrefix(scopes[..d], comps, longer);
      assert comps[..d] == longer[..d];
    }
  }

  /** The verdict read off the stack is the stateless one. */
  lemma {:induction false} StackVerdict(fm: Fnmatch, scopes: seq<seq<Spec>>, comps: seq<bytes>, isDir: bool)
    requires ValidNames(comps) && |scopes| <= |comps|
    ensures Verdict(fm, Stack(scopes, comps), Join(comps), isDir) == ScopedVerdict(fm, scopes, comps, isDir)
    decreases |scopes|, 1
  {
    if scopes != [] {
      StackScopeVerdict(fm, scopes, scopes[|scopes| - 1], comps, isDir);
    }
  }

  lemma {:induction false} StackScopeVerdict(fm: Fnmatch, scopes: seq<seq<Spec>>, lines: seq<Spec>,
                                             comps: seq<bytes>, isDir: bool)
    requires ValidNames(comps) && 0 < |scopes| <= |comps|
    ensures var d := |scopes| - 1;
      var rules := Stack(scopes[..d], comps) + Tag(lines, Join(comps[..d]), d);
      Verdict(fm, rules, Join(comps), isDir) == ScopeVerdict(fm, scopes, lines, comps, isDir)
    decreases |scopes|, 0, |lines|
  {
    hide MatchRule, SpecMatches, Join, ValidNames;
    var d := |scopes| - 1;
    var below, tagged := Stack(scopes[..d], comps), Tag(lines, Join(comps[..d]), d);
    if lines == [] {
      StackVerdict(fm, scopes[..d], comps, isDir);
      assert below + tagged == below;
    } else {
      var n := |lines| - 1;
      RuleMeansSpec(fm, tagged[n], comps, d, isDir);
      StackScopeVerdict(fm, scopes, lines[..n], comps, isDir);
      assert (below + tagged)[..|below + tagged| - 1] == below + Tag(lines[..n], Join(comps[..d]), d);
    }
  }
}
