/** The release checker: validates a file of extensions with their dependencies
    and lists the extensions to release. Each line has the form
    name=version or name=version#name=version,name=version,... */
module Artifacts {
  import opened Basics
  import opened TopologicalSort

  const OMNI_PREFIX := "omni"
  const UNRELEASED := "unreleased"
  const ANY_VERSION := "*"

  datatype Pair = Pair(name: string, version: string)

  datatype Line = Line(head: Pair, deps: seq<Pair>)

  // ---- text ----

  function Split(s: string, sep: char): (r: seq<string>)
    ensures r != []
  {
    if s == "" then [""]
    else
      var rest := Split(s[1..], sep);
      if s[0] == sep then [""] + rest else [[s[0]] + rest[0]] + rest[1..]
  }

  function Join(parts: seq<string>, sep: char): string
    requires parts != []
  {
    if |parts| == 1 then parts[0] else parts[0] + [sep] + Join(parts[1..], sep)
  }

  /** Splitting cuts at every separator and loses nothing. */
  lemma {:induction false} SplitIsJoinInverse(s: string, sep: char)
    ensures Join(Split(s, sep), sep) == s
    ensures forall part | part in Split(s, sep) :: sep !in part
  {
    if s != "" {
      SplitIsJoinInverse(s[1..], sep);
      var rest, r := Split(s[1..], sep), Split(s, sep);
      if s[0] == sep {
        assert r[1..] == rest;
      } else {
        assert r[1..] == rest[1..];
        assert rest[0] in rest && forall part | part in rest[1..] :: part in rest;
      }
    }
  }

  /** The parts of a text hold only characters of it. */
  lemma {:induction false} PartsAreWithin(s: string, sep: char)
    ensures forall part, c | part in Split(s, sep) && c in part :: c in s
  {
    if s != "" {
      PartsAreWithin(s[1..], sep);
      var rest := Split(s[1..], sep);
      assert rest[0] in rest && forall part | part in rest[1..] :: part in rest;
    }
  }

  lemma {:induction false} SplitFirst(a: string, rest: string, sep: char)
    requires sep !in a
    ensures Split(a, sep) == [a]
    ensures Split(a + [sep] + rest, sep) == [a] + Split(rest, sep)
  {
    var s := a + [sep] + rest;
    if a == "" {
      assert s[1..] == rest;
    } else {
      SplitFirst(a[1..], rest, sep);
      assert s[1..] == a[1..] + [sep] + rest && s[0] == a[0];
      assert a == [a[0]] + a[1..];
      assert ([a[1..]] + Split(rest, sep))[1..] == Split(rest, sep);
    }
  }

  /** Joining is undone by splitting exactly when no part holds the separator. */
  lemma {:induction false} JoinIsSplitInverse(parts: seq<string>, sep: char)
    requires parts != []
    ensures Split(Join(parts, sep), sep) == parts <==> forall part | part in parts :: sep !in part
    decreases |parts|
  {
    SplitIsJoinInverse(Join(parts, sep), sep);
    if sep !in parts[0] {
      SplitFirst(parts[0], if |parts| == 1 then "" else Join(parts[1..], sep), sep);
      if |parts| > 1 {
        JoinIsSplitInverse(parts[1..], sep);
        assert parts == [parts[0]] + parts[1..];
        assert ([parts[0]] + Split(Join(parts[1..], sep), sep))[1..] == Split(Join(parts[1..], sep), sep);
      }
    }
  }

  predicate IsDigits(s: string) {
    s != "" && forall c | c in s :: '0' <= c <= '9'
  }

  /** Three dot-separated numbers. */
  predicate IsSemver(s: string) {
    var parts := Split(s, '.');
    |parts| == 3 && IsDigits(parts[0]) && IsDigits(parts[1]) && IsDigits(parts[2])
  }

  ghost predicate IsTriple(s: string, a: string, b: string, c: string) {
    IsDigits(a) && IsDigits(b) && IsDigits(c) && s == a + "." + b + "." + c
  }

  /** The released versions are exactly the texts of that form. */
  lemma SemverIff(s: string)
    ensures IsSemver(s) <==> exists a, b, c :: IsTriple(s, a, b, c)
  {
    if IsSemver(s) {
      SemverParts(s);
    }
    if a, b, c :| IsTriple(s, a, b, c) {
      TripleIsSemver(s, a, b, c);
    }
  }

  lemma SemverParts(s: string)
    requires IsSemver(s)
    ensures var parts := Split(s, '.'); IsTriple(s, parts[0], parts[1], parts[2])
  {
    SplitIsJoinInverse(s, '.');
    var parts := Split(s, '.');
    assert Join(parts[1..], '.') == parts[1] + "." + Join(parts[1..][1..], '.');
  }

  lemma TripleIsSemver(s: string, a: string, b: string, c: string)
    requires IsTriple(s, a, b, c)
    ensures IsSemver(s)
  {
    JoinThree(a, b, c, '.');
    JoinIsSplitInverse([a, b, c], '.');
  }

  lemma JoinThree(a: string, b: string, c: string, sep: char)
    ensures Join([a, b, c], sep) == a + [sep] + b + [sep] + c
  {
    assert [a, b, c][1..] == [b, c] && [b, c][1..] == [c];
    assert Join([b, c], sep) == b + [sep] + c;
  }

  predicate IsOmni(name: string) {
    |name| >= |OMNI_PREFIX| && name[..|OMNI_PREFIX|] == OMNI_PREFIX
  }

  lemma OmniIff(name: string)
    ensures IsOmni(name) <==> exists rest {:trigger "omni" + rest} :: name == "omni" + rest
  {
    if IsOmni(name) {
      assert name == "omni" + name[4..];
    }
  }

  predicate IsVersion(s: string) {
    IsSemver(s) || s == UNRELEASED
  }

  function ParsePair(s: string): Option<Pair> {
    var parts := Split(s, '=');
    if |parts| == 2 then Some(Pair(parts[0], parts[1])) else None
  }

  /** Applies a parser to every text; one failure fails the whole. */
  function Traverse<T>(ss: seq<string>, parse: string -> Option<T>): Option<seq<T>> {
    if ss == [] then Some([])
    else
      var front := Traverse(ss[..|ss| - 1], parse);
      var last := parse(ss[|ss| - 1]);
      if front.Some? && last.Some? then Some(front.value + [last.value]) else None
  }

  function ParsePairs(ss: seq<string>): Option<seq<Pair>> {
    Traverse(ss, ParsePair)
  }

  /** A second '#' makes the rest of the line no dependency list at all. */
  function DependencyTexts(line: string): seq<string> {
    var parts := Split(line, '#');
    if |parts| == 2 then Split(parts[1], ',') else []
  }

  function ParseLine(line: string): Option<Line> {
    var head := ParsePair(Split(line, '#')[0]);
    var deps := ParsePairs(DependencyTexts(line));
    if head.Some? && deps.Some? then Some(Line(head.value, deps.value)) else None
  }

  function ParseLines(lines: seq<string>): Option<seq<Line>> {
    Traverse(lines, ParseLine)
  }

  // ---- writing lines out ----

  function PrintPair(p: Pair): string {
    p.name + "=" + p.version
  }

  function PrintPairs(ps: seq<Pair>): seq<string> {
    seq(|ps|, i requires 0 <= i < |ps| => PrintPair(ps[i]))
  }

  function PrintLine(l: Line): string {
    PrintPair(l.head) + if l.deps == [] then "" else "#" + Join(PrintPairs(l.deps), ',')
  }

  function PrintLines(ls: seq<Line>): seq<string> {
    seq(|ls|, i requires 0 <= i < |ls| => PrintLine(ls[i]))
  }

  /** Neither the name nor the version holds the character. */
  predicate Lacks(p: Pair, c: char) {
    c !in p.name && c !in p.version
  }

  /** No name or version holds a separator; a comma separates dependencies only. */
  ghost predicate CleanLine(l: Line) {
    && Lacks(l.head, '=') && Lacks(l.head, '#')
    && forall d | d in l.deps :: Lacks(d, '=') && Lacks(d, '#') && Lacks(d, ',')
  }

  lemma PairRoundTrip(p: Pair, s: string)
    ensures ParsePair(PrintPair(p)) == Some(p) <==> Lacks(p, '=')
    ensures ParsePair(s) == Some(p) ==> PrintPair(p) == s && Lacks(p, '=')
  {
    var parts := [p.name, p.version];
    assert Join(parts[1..], '=') == p.version;
    assert Join(parts, '=') == PrintPair(p);
    assert parts[0] in parts && parts[1] in parts;
    JoinIsSplitInverse(parts, '=');
    SplitIsJoinInverse(s, '=');
    if ParsePair(s) == Some(p) {
      assert Split(s, '=') == parts;
    }
  }

  lemma {:induction false} TraverseIff<T>(ss: seq<string>, parse: string -> Option<T>, ts: seq<T>)
    ensures Traverse(ss, parse) == Some(ts) <==> |ts| == |ss| && forall i | 0 <= i < |ss| :: parse(ss[i]) == Some(ts[i])
  {
    if ss != [] {
      var n := |ss| - 1;
      if |ts| == |ss| {
        TraverseIff(ss[..n], parse, ts[..n]);
        assert ts == ts[..n] + [ts[n]];
      }
      var front := Traverse(ss[..n], parse);
      if front.Some? {
        TraverseIff(ss[..n], parse, front.value);
      }
    }
  }

  lemma PairsRoundTrip(ps: seq<Pair>, ss: seq<string>)
    ensures (forall p | p in ps :: Lacks(p, '=')) ==> ParsePairs(PrintPairs(ps)) == Some(ps)
    ensures ParsePairs(ss) == Some(ps) ==> PrintPairs(ps) == ss && forall p | p in ps :: Lacks(p, '=')
  {
    TraverseIff(PrintPairs(ps), ParsePair, ps);
    TraverseIff(ss, ParsePair, ps);
    forall i | 0 <= i < |ps|
      ensures ParsePair(PrintPair(ps[i])) == Some(ps[i]) <==> Lacks(ps[i], '=')
      ensures |ss| == |ps| && ParsePair(ss[i]) == Some(ps[i]) ==> PrintPair(ps[i]) == ss[i] && Lacks(ps[i], '=')
    {
      PairRoundTrip(ps[i], if |ss| == |ps| then ss[i] else "");
    }
  }

  // The head has no '#' in it, so the line splits where the printer put one.
  lemma PrintedLineSplits(l: Line)
    requires CleanLine(l)
    ensures Split(PrintLine(l), '#')[0] == PrintPair(l.head)
    ensures DependencyTexts(PrintLine(l)) == if l.deps == [] then [] else PrintPairs(l.deps)
  {
    var head, texts := PrintPair(l.head), PrintPairs(l.deps);
    if l.deps == [] {
      SplitFirst(head, "", '#');
      assert PrintLine(l) == head;
    } else {
      forall t | t in texts ensures '#' !in t && ',' !in t {
        var i :| 0 <= i < |texts| && texts[i] == t;
        assert l.deps[i] in l.deps;
      }
      var tail := Join(texts, ',');
      JoinLacks(texts, ',', '#');
      SplitFirst(head, tail, '#');
      SplitFirst(tail, "", '#');
      assert PrintLine(l) == head + "#" + tail;
      JoinIsSplitInverse(texts, ',');
    }
  }

  lemma {:induction false} JoinLacks(parts: seq<string>, sep: char, c: char)
    requires parts != [] && c != sep && forall part | part in parts :: c !in part
    ensures c !in Join(parts, sep)
    decreases |parts|
  {
    assert parts[0] in parts;
    if |parts| > 1 {
      JoinLacks(parts[1..], sep, c);
    }
  }

  /** What is read from any text holds no separators. */
  lemma ParsedIsClean(s: string)
    ensures ParseLine(s).Some? ==> CleanLine(ParseLine(s).value)
  {
    if ParseLine(s).Some? {
      var l, parts, texts := ParseLine(s).value, Split(s, '#'), DependencyTexts(s);
      SplitIsJoinInverse(s, '#');
      assert parts[0] in parts;
      PairRoundTrip(l.head, parts[0]);
      PairsRoundTrip(l.deps, texts);
      forall d | d in l.deps ensures Lacks(d, '#') && Lacks(d, ',') {
        var i :| 0 <= i < |l.deps| && l.deps[i] == d;
        DependencyTextLacks(s, texts[i]);
        assert PrintPairs(l.deps)[i] == texts[i] == PrintPair(d);
      }
    }
  }

  lemma DependencyTextLacks(s: string, t: string)
    requires t in DependencyTexts(s)
    ensures '#' !in t && ',' !in t
  {
    var parts := Split(s, '#');
    SplitIsJoinInverse(s, '#');
    assert parts[1] in parts;
    SplitIsJoinInverse(parts[1], ',');
    PartsAreWithin(parts[1], ',');
  }

  /** A line written out is read back as it was exactly when no name or version holds
      a separator. */
  lemma ParseOfPrintedIff(l: Line)
    ensures ParseLine(PrintLine(l)) == Some(l) <==> CleanLine(l)
  {
    ParsedIsClean(PrintLine(l));
    if CleanLine(l) {
      PrintedLineSplits(l);
      PairRoundTrip(l.head, "");
      PairsRoundTrip(l.deps, []);
      assert l.deps == [] ==> PrintPairs(l.deps) == [];
    }
  }

  /** A text that is read as a line is that line written out exactly when it has at
      most one '#'; with more, what follows the first is not looked at. */
  lemma PrintOfParsedIff(s: string)
    ensures ParseLine(s).Some? ==> (PrintLine(ParseLine(s).value) == s <==> |Split(s, '#')| <= 2)
    ensures |Split(s, '#')| > 2 ==> ParseLine(s) == ParseLine(Split(s, '#')[0]) && DependencyTexts(s) == []
  {
    var parts := Split(s, '#');
    SplitIsJoinInverse(s, '#');
    assert parts[0] in parts;
    SplitFirst(parts[0], "", '#');
    if ParseLine(s).Some? {
      PairRoundTrip(ParseLine(s).value.head, parts[0]);
      if |parts| == 2 {
        PrintOfDependencies(s);
      }
    }
  }

  lemma PrintOfDependencies(s: string)
    requires ParseLine(s).Some? && |Split(s, '#')| == 2
    ensures PrintLine(ParseLine(s).value) == s
  {
    var parts, l := Split(s, '#'), ParseLine(s).value;
    SplitIsJoinInverse(s, '#');
    SplitIsJoinInverse(parts[1], ',');
    PairRoundTrip(l.head, parts[0]);
    PairsRoundTrip(l.deps, Split(parts[1], ','));
    JoinTwo(parts, '#');
  }

  lemma JoinTwo(parts: seq<string>, sep: char)
    requires |parts| == 2
    ensures Join(parts, sep) == parts[0] + ([sep] + parts[1])
  {
    assert Join(parts[1..], sep) == parts[1];
  }

  /** The lines of a file written out are read back as they were. */
  lemma ParseOfPrintedLines(ls: seq<Line>)
    requires forall l | l in ls :: CleanLine(l)
    ensures ParseLines(PrintLines(ls)) == Some(ls)
  {
    TraverseIff(PrintLines(ls), ParseLine, ls);
    forall i | 0 <= i < |ls| ensures ParseLine(PrintLine(ls[i])) == Some(ls[i]) {
      assert ls[i] in ls;
      ParseOfPrintedIff(ls[i]);
    }
  }

  // ---- which files are accepted ----

  ghost predicate HeadOk(l: Line) {
    IsVersion(l.head.version) && IsOmni(l.head.name)
  }

  /** An omni dependency has a version, and a released one if its dependent has;
      any other dependency is not versioned. */
  ghost predicate DepOk(head: Pair, d: Pair) {
    if IsOmni(d.name) then IsVersion(d.version) && (IsSemver(head.version) ==> d.version != UNRELEASED)
    else d.version == ANY_VERSION
  }

  ghost predicate DistinctDeps(deps: seq<Pair>) {
    forall i, j | 0 <= i < j < |deps| :: deps[i].name != deps[j].name
  }

  ghost predicate LineOk(l: Line) {
    HeadOk(l) && DistinctDeps(l.deps) && forall d | d in l.deps :: DepOk(l.head, d)
  }

  ghost predicate DistinctHeads(ls: seq<Line>) {
    forall i, j | 0 <= i < j < |ls| :: ls[i].head.name != ls[j].head.name
  }

  ghost predicate Mentions(ls: seq<Line>, p: Pair) {
    exists l :: l in ls && (p == l.head || p in l.deps)
  }

  /** A name has one version throughout the file. */
  ghost predicate Consistent(ls: seq<Line>) {
    forall p, q | Mentions(ls, p) && Mentions(ls, q) && p.name == q.name :: p.version == q.version
  }

  ghost predicate DependsOn(ls: seq<Line>, a: string, b: string) {
    exists l, d :: l in ls && l.head.name == a && d in l.deps && d.name == b
  }

  ghost predicate IsHead(ls: seq<Line>, name: string) {
    exists l :: l in ls && l.head.name == name
  }

  /** Every omni dependency has a line of its own. */
  ghost predicate Complete(ls: seq<Line>) {
    forall a, b | DependsOn(ls, a, b) && IsOmni(b) :: IsHead(ls, b)
  }

  ghost predicate Circular(ls: seq<Line>) {
    exists p: seq<string> :: IsCircle(ls, p)
  }

  ghost predicate IsCircle(ls: seq<Line>, p: seq<string>) {
    |p| >= 2 && p[0] == p[|p| - 1] && forall i | 0 <= i < |p| - 1 :: DependsAt(ls, p, i)
  }

  ghost predicate DependsAt(ls: seq<Line>, p: seq<string>, i: nat)
    requires i + 1 < |p|
  {
    DependsOn(ls, p[i], p[i + 1])
  }

  /** What the lines must satisfy before dependencies are followed across lines. */
  ghost predicate WellFormed(ls: seq<Line>) {
    AllOk(ls) && DistinctHeads(ls) && Consistent(ls)
  }

  ghost predicate AllOk(ls: seq<Line>) {
    forall l {:trigger LineOk(l)} | l in ls :: LineOk(l)
  }

  ghost predicate Acceptable(lines: seq<string>) {
    var ls := ParseLines(lines);
    ls.Some? && WellFormed(ls.value) && Complete(ls.value) && !Circular(ls.value)
  }

  // ---- small files, from their text ----

  /** The version of a line of its own. */
  predicate OwnVersion(s: string) {
    IsSemver(s) || s == "unreleased"
  }

  lemma DependsAtOne(l: Line, p: seq<string>, i: nat)
    requires i + 1 < |p| && forall d | d in l.deps :: d.name != l.head.name
    ensures DependsAt([l], p, i) ==> p[i] == l.head.name && p[i + 1] != l.head.name
  {
  }

  lemma NoCircleOfOne(l: Line)
    requires forall d | d in l.deps :: d.name != l.head.name
    ensures !Circular([l])
  {
    forall p: seq<string> ensures !IsCircle([l], p) {
      if |p| >= 2 {
        DependsAtOne(l, p, 0);
      }
      if |p| >= 3 {
        DependsAtOne(l, p, 1);
      }
    }
  }

  lemma MentionsOne(l: Line, p: Pair)
    ensures Mentions([l], p) <==> p == l.head || p in l.deps
  {
    assert l in [l];
  }

  /** A line that depends on one foreign extension, alone in its file: it is accepted
      exactly when the extension is an omni one at a release or unreleased, and the foreign
      one is at any version. */
  lemma ForeignDependencyFile(name: string, version: string, foreign: string, v: string)
    requires CleanLine(Line(Pair(name, version), [Pair(foreign, v)])) && !IsOmni(foreign)
    ensures Acceptable([name + "=" + version + "#" + foreign + "=" + v]) <==> IsOmni(name) && OwnVersion(version) && v == "*"
  {
    var d := Pair(foreign, v);
    var l := Line(Pair(name, version), [d]);
    OneLine(l, d);
    assert l in [l] && d in l.deps;
    if IsOmni(name) && OwnVersion(version) && v == "*" {
      forall p, q | Mentions([l], p) && Mentions([l], q) && p.name == q.name ensures p.version == q.version {
        MentionsOne(l, p);
        MentionsOne(l, q);
      }
      NoCircleOfOne(l);
      assert LineOk(l);
    } else {
      assert !LineOk(l);
    }
  }

  lemma OneLine(l: Line, d: Pair)
    requires CleanLine(l) && l.deps == [d]
    ensures ParseLines([l.head.name + "=" + l.head.version + "#" + d.name + "=" + d.version]) == Some([l])
  {
    var text := l.head.name + "=" + l.head.version + "#" + d.name + "=" + d.version;
    assert PrintPairs(l.deps) == [PrintPair(d)];
    assert PrintLine(l) == PrintPair(l.head) + ("#" + PrintPair(d)) == text;
    ParseOfPrintedLines([l]);
    assert PrintLines([l]) == [text];
  }

  /** A released extension is refused when it depends on an unreleased one, whatever else
      the file holds. */
  lemma UnreleasedDependencyIsRefused(lines: seq<string>, k: nat, name: string, version: string, omni: string)
    requires k < |lines| && lines[k] == name + "=" + version + "#" + omni + "=" + "unreleased"
    requires CleanLine(Line(Pair(name, version), [Pair(omni, "unreleased")])) && IsSemver(version) && IsOmni(omni)
    ensures !Acceptable(lines)
  {
    var d := Pair(omni, "unreleased");
    var l := Line(Pair(name, version), [d]);
    OneLine(l, d);
    TraverseIff([lines[k]], ParseLine, [l]);
    assert [lines[k]][0] == lines[k];
    if ParseLines(lines).Some? {
      TraverseIff(lines, ParseLine, ParseLines(lines).value);
      assert l in ParseLines(lines).value && d in l.deps;
      assert !LineOk(l);
    }
  }

  // ---- what is released ----

  /** The released list: every extension with a released version, once, at that
      version; closed under omni dependencies, each listed after its dependents. */
  ghost predicate IsRelease(ls: seq<Line>, rel: seq<Pair>) {
    && (forall i, j | 0 <= i < j < |rel| :: rel[i].name != rel[j].name)
    && (forall p :: p in rel <==> IsSemver(p.version) && exists l :: l in ls && l.head == p)
    && (forall l, d | l in ls && l.head in rel && d in l.deps && IsOmni(d.name) :: Before(rel, l.head, d))
  }

  ghost predicate Before(rel: seq<Pair>, p: Pair, q: Pair) {
    exists i, j :: 0 <= i < j < |rel| && rel[i] == p && rel[j] == q
  }

  // ---- the dictionaries ----

  /** The dependency graph as a dictionary in insertion order, and the version of
      every name seen, likewise. */
  datatype Tables = Tables(nodes: seq<string>, adj: map<string, seq<string>>, names: seq<string>, versions: map<string, string>)

  function DepNames(deps: seq<Pair>): seq<string> {
    seq(|deps|, i requires 0 <= i < |deps| => deps[i].name)
  }

  ghost predicate GraphRecorded(ls: seq<Line>, t: Tables) {
    && |t.nodes| == |ls| && (forall k | 0 <= k < |ls| :: t.nodes[k] == ls[k].head.name)
    && (forall n :: n in t.adj <==> n in t.nodes)
    && (forall k | 0 <= k < |ls| && ls[k].head.name in t.adj :: t.adj[ls[k].head.name] == DepNames(ls[k].deps))
  }

  ghost predicate VersionsRecorded(ls: seq<Line>, t: Tables) {
    && (forall p | Mentions(ls, p) :: p.name in t.versions && t.versions[p.name] == p.version)
    && (forall n | n in t.versions :: Mentions(ls, Pair(n, t.versions[n])))
    && Distinct(t.names) && (forall n :: n in t.names <==> n in t.versions)
  }

  ghost predicate Recorded(ls: seq<Line>, t: Tables) {
    GraphRecorded(ls, t) && VersionsRecorded(ls, t)
  }

  function WithVersion(t: Tables, p: Pair): Tables {
    t.(names := if p.name in t.versions then t.names else t.names + [p.name], versions := t.versions[p.name := p.version])
  }

  ghost predicate VersionFits(t: Tables, p: Pair) {
    p.name in t.versions ==> t.versions[p.name] == p.version
  }

  lemma MentionsAppend(ls: seq<Line>, l: Line, p: Pair)
    ensures Mentions(ls + [l], p) <==> Mentions(ls, p) || p == l.head || p in l.deps
  {
  }

  /** Two sets of mentions that differ in one new pair: the pair fits the recorded
      versions exactly when the larger set is still consistent. */
  lemma VersionFitsIff(ls: seq<Line>, ls': seq<Line>, t: Tables, p: Pair)
    requires VersionsRecorded(ls, t) && Consistent(ls)
    requires forall q :: Mentions(ls', q) <==> Mentions(ls, q) || q == p
    ensures VersionFits(t, p) <==> Consistent(ls')
    ensures VersionFits(t, p) ==> VersionsRecorded(ls', WithVersion(t, p))
  {
    if VersionFits(t, p) {
      var t' := WithVersion(t, p);
      forall q | Mentions(ls', q) ensures q.name in t'.versions && t'.versions[q.name] == q.version {
      }
      assert Mentions(ls', p);
      forall n | n in t'.versions ensures Mentions(ls', Pair(n, t'.versions[n])) {
        if n == p.name {
          assert Pair(n, t'.versions[n]) == p;
        }
      }
    } else {
      assert Mentions(ls', p) && Mentions(ls', Pair(p.name, t.versions[p.name]));
    }
  }

  // ---- loading one line ----

  lemma AllOkAppend(ls: seq<Line>, l: Line)
    ensures AllOk(ls + [l]) <==> AllOk(ls) && LineOk(l)
  {
  }

  lemma LineOkAppend(h: Pair, deps: seq<Pair>, d: Pair)
    requires LineOk(Line(h, deps))
    ensures LineOk(Line(h, deps + [d])) <==> DepOk(h, d) && DistinctDeps(deps + [d])
  {
  }

  lemma DistinctHeadsAppend(ls: seq<Line>, l: Line, nodes: seq<string>)
    requires |nodes| == |ls| && forall k | 0 <= k < |ls| :: nodes[k] == ls[k].head.name
    requires DistinctHeads(ls)
    ensures DistinctHeads(ls + [l]) <==> l.head.name !in nodes
  {
    var ls' := ls + [l];
    if l.head.name in nodes {
      var k :| 0 <= k < |nodes| && nodes[k] == l.head.name;
      assert ls'[k].head.name == ls'[|ls|].head.name;
    } else {
      forall i, j | 0 <= i < j < |ls'| ensures ls'[i].head.name != ls'[j].head.name {
        assert nodes[i] in nodes;
      }
    }
  }

  function WithHead(t: Tables, h: Pair): Tables {
    WithVersion(t.(nodes := t.nodes + [h.name], adj := t.adj[h.name := []]), h)
  }

  lemma AddHeadGraph(ls: seq<Line>, t: Tables, h: Pair)
    requires GraphRecorded(ls, t) && h.name !in t.adj
    ensures GraphRecorded(ls + [Line(h, [])], WithHead(t, h))
  {
  }

  lemma AddHead(ls: seq<Line>, t: Tables, h: Pair)
    requires Recorded(ls, t) && WellFormed(ls)
    ensures WellFormed(ls + [Line(h, [])]) <==> HeadOk(Line(h, [])) && h.name !in t.adj && VersionFits(t, h)
    ensures WellFormed(ls + [Line(h, [])]) ==> Recorded(ls + [Line(h, [])], WithHead(t, h))
  {
    var l := Line(h, []);
    AllOkAppend(ls, l);
    assert LineOk(l) <==> HeadOk(l);
    DistinctHeadsAppend(ls, l, t.nodes);
    forall q ensures Mentions(ls + [l], q) <==> Mentions(ls, q) || q == h {
      MentionsAppend(ls, l, q);
    }
    VersionFitsIff(ls, ls + [l], t, h);
    if h.name !in t.adj {
      AddHeadGraph(ls, t, h);
    }
    SameVersions(ls + [l], WithVersion(t, h), WithHead(t, h));
  }

  lemma SameVersions(ls: seq<Line>, t: Tables, t': Tables)
    requires t.versions == t'.versions && t.names == t'.names
    ensures VersionsRecorded(ls, t) <==> VersionsRecorded(ls, t')
  {
  }

  ghost predicate DepFits(t: Tables, h: Pair, d: Pair)
    requires h.name in t.adj
  {
    DepOk(h, d) && VersionFits(t, d) && d.name !in t.adj[h.name]
  }

  function WithDep(t: Tables, h: Pair, d: Pair): Tables
    requires h.name in t.adj
  {
    WithVersion(t.(adj := t.adj[h.name := t.adj[h.name] + [d.name]]), d)
  }

  lemma LastIsHead(ls: seq<Line>, l: Line, t: Tables)
    requires GraphRecorded(ls + [l], t)
    ensures l.head.name in t.adj && t.adj[l.head.name] == DepNames(l.deps)
  {
    assert (ls + [l])[|ls|] == l;
    assert t.nodes[|ls|] in t.nodes;
  }

  lemma DistinctDepsAppend(deps: seq<Pair>, d: Pair)
    requires DistinctDeps(deps)
    ensures DistinctDeps(deps + [d]) <==> d.name !in DepNames(deps)
    ensures DepNames(deps + [d]) == DepNames(deps) + [d.name]
  {
    var names := DepNames(deps);
    if d.name in names {
      var k :| 0 <= k < |deps| && names[k] == d.name;
      assert (deps + [d])[k].name == (deps + [d])[|deps|].name;
    } else {
      forall i, j | 0 <= i < j < |deps + [d]| ensures (deps + [d])[i].name != (deps + [d])[j].name {
        assert names[i] in names;
      }
    }
  }

  lemma AddDepGraph(ls: seq<Line>, t: Tables, h: Pair, deps: seq<Pair>, d: Pair)
    requires GraphRecorded(ls + [Line(h, deps)], t) && DistinctHeads(ls + [Line(h, deps)])
    requires h.name in t.adj && DepNames(deps + [d]) == t.adj[h.name] + [d.name]
    ensures GraphRecorded(ls + [Line(h, deps + [d])], WithDep(t, h, d))
  {
    var before, after := ls + [Line(h, deps)], ls + [Line(h, deps + [d])];
    var t' := WithDep(t, h, d);
    forall k | 0 <= k < |after|
      ensures t'.nodes[k] == after[k].head.name
      ensures after[k].head.name in t'.adj ==> t'.adj[after[k].head.name] == DepNames(after[k].deps)
    {
      if k < |ls| {
        assert before[k] == after[k] && before[k].head.name != before[|ls|].head.name;
      }
    }
  }

  lemma DistinctHeadsSwap(ls: seq<Line>, l: Line, l': Line)
    requires DistinctHeads(ls + [l]) && l.head == l'.head
    ensures DistinctHeads(ls + [l'])
  {
    forall i, j | 0 <= i < j < |ls + [l']| ensures (ls + [l'])[i].head.name != (ls + [l'])[j].head.name {
      assert (ls + [l])[i].head.name != (ls + [l])[j].head.name;
    }
  }

  lemma AddDep(ls: seq<Line>, t: Tables, h: Pair, deps: seq<Pair>, d: Pair)
    requires Recorded(ls + [Line(h, deps)], t) && WellFormed(ls + [Line(h, deps)])
    ensures h.name in t.adj
    ensures WellFormed(ls + [Line(h, deps + [d])]) <==> DepFits(t, h, d)
    ensures WellFormed(ls + [Line(h, deps + [d])]) ==> Recorded(ls + [Line(h, deps + [d])], WithDep(t, h, d))
  {
    var l, l' := Line(h, deps), Line(h, deps + [d]);
    AllOkAppend(ls, l);
    AllOkAppend(ls, l');
    LineOkAppend(h, deps, d);
    DistinctHeadsSwap(ls, l, l');
    LastIsHead(ls, l, t);
    DistinctDepsAppend(deps, d);
    AddDepGraph(ls, t, h, deps, d);
    forall q ensures Mentions(ls + [l'], q) <==> Mentions(ls + [l], q) || q == d {
      MentionsAppend(ls, l, q);
      MentionsAppend(ls, l', q);
    }
    VersionFitsIff(ls + [l], ls + [l'], t, d);
    SameVersions(ls + [l'], WithVersion(t, d), WithDep(t, h, d));
  }

  // ---- what holds of a file holds of its beginning ----

  lemma {:induction false} TraversePrefix<T>(ss: seq<string>, parse: string -> Option<T>, k: nat)
    requires k < |ss| && Traverse(ss, parse).Some?
    ensures |Traverse(ss, parse).value| == |ss|
    ensures Traverse(ss[..k], parse) == Some(Traverse(ss, parse).value[..k])
    ensures parse(ss[k]) == Some(Traverse(ss, parse).value[k])
    decreases |ss|
  {
    var n := |ss| - 1;
    var front := ss[..n];
    if n > 0 {
      TraversePrefix(front, parse, if k < n then k else 0);
    }
    if k < n {
      assert front[..k] == ss[..k];
      assert Traverse(ss, parse).value[..k] == Traverse(front, parse).value[..k];
    } else {
      assert Traverse(ss, parse).value[..n] == Traverse(front, parse).value;
    }
  }

  lemma ConsistentSubset(ls: seq<Line>, ls': seq<Line>)
    requires Consistent(ls) && forall p | Mentions(ls', p) :: Mentions(ls, p)
    ensures Consistent(ls')
  {
  }

  lemma WellFormedFewerDeps(ls: seq<Line>, h: Pair, deps: seq<Pair>, k: nat)
    requires k <= |deps| && WellFormed(ls + [Line(h, deps)])
    ensures WellFormed(ls + [Line(h, deps[..k])])
  {
    var l, l' := Line(h, deps), Line(h, deps[..k]);
    AllOkAppend(ls, l);
    AllOkAppend(ls, l');
    assert forall d | d in deps[..k] :: d in deps;
    DistinctHeadsSwap(ls, l, l');
    forall p | Mentions(ls + [l'], p) ensures Mentions(ls + [l], p) {
      MentionsAppend(ls, l, p);
      MentionsAppend(ls, l', p);
    }
    ConsistentSubset(ls + [l], ls + [l']);
  }

  lemma WellFormedPrefix(ls: seq<Line>, k: nat)
    requires k <= |ls| && WellFormed(ls)
    ensures WellFormed(ls[..k])
  {
  }

  // If the whole line is in order, so is one dependency more than those read so far.
  lemma NextDepInOrder(ls: seq<Line>, head: Pair, texts: seq<string>, k: nat, deps: seq<Pair>)
    requires k < |texts| && ParsePairs(texts[..k]) == Some(deps)
    requires ParsePairs(texts).Some? && WellFormed(ls + [Line(head, ParsePairs(texts).value)])
    ensures ParsePair(texts[k]).Some? && WellFormed(ls + [Line(head, deps + [ParsePair(texts[k]).value])])
  {
    var all := ParsePairs(texts).value;
    TraversePrefix(texts, ParsePair, k);
    WellFormedFewerDeps(ls, head, all, k + 1);
    assert all[..k + 1] == deps + [all[k]];
  }

  lemma NextLineInOrder(lines: seq<string>, k: nat, ls: seq<Line>)
    requires k < |lines| && ParseLines(lines[..k]) == Some(ls)
    requires ParseLines(lines).Some? && WellFormed(ParseLines(lines).value)
    ensures ParseLine(lines[k]).Some? && WellFormed(ls + [ParseLine(lines[k]).value])
  {
    var all := ParseLines(lines).value;
    TraversePrefix(lines, ParseLine, k);
    PrefixAndNext(all, k);
    WellFormedPrefix(all, k + 1);
  }

  lemma PrefixAndNext<T>(s: seq<T>, k: nat)
    requires k < |s|
    ensures s[..k + 1] == s[..k] + [s[k]]
  {
  }

  lemma TraverseNext<T>(ss: seq<string>, parse: string -> Option<T>, k: nat, front: seq<T>)
    requires k < |ss| && Traverse(ss[..k], parse) == Some(front) && parse(ss[k]).Some?
    ensures Traverse(ss[..k + 1], parse) == Some(front + [parse(ss[k]).value])
  {
    assert ss[..k + 1][..k] == ss[..k];
  }

  // ---- the checker ----

  datatype Rejection =
    | Unreadable | BadVersion(name: string) | NotOmni(name: string) | DuplicateEntry(name: string)
    | VersionMismatch(name: string) | UnreleasedDependency(name: string) | VersionedForeign(name: string)
    | DuplicateDependency(name: string) | MissingLine(name: string) | DependencyCycle

  datatype Outcome<T> = Accepted(value: T) | Rejected(reason: Rejection)

  /** Checks one dependency against its dependent and the names seen so far. */
  method CheckDependency(t: Tables, head: Pair, d: Pair) returns (r: Outcome<Tables>)
    requires head.name in t.adj
    ensures r.Accepted? <==> DepFits(t, head, d)
    ensures r.Accepted? ==> r.value == WithDep(t, head, d)
  {
    if IsOmni(d.name) {
      if !IsSemver(d.version) && d.version != UNRELEASED {
        return Rejected(BadVersion(d.name));
      }
      if IsSemver(head.version) && d.version == UNRELEASED {
        return Rejected(UnreleasedDependency(d.name));
      }
    } else if d.version != ANY_VERSION {
      return Rejected(VersionedForeign(d.name));
    }
    if d.name in t.versions && t.versions[d.name] != d.version {
      return Rejected(VersionMismatch(d.name));
    }
    if d.name in t.adj[head.name] {
      return Rejected(DuplicateDependency(d.name));
    }
    return Accepted(WithDep(t, head, d));
  }

  method LoadDependencies(t0: Tables, head: Pair, texts: seq<string>, ghost ls: seq<Line>) returns (r: Outcome<Tables>)
    requires Recorded(ls + [Line(head, [])], t0) && WellFormed(ls + [Line(head, [])])
    ensures r.Accepted? <==> ParsePairs(texts).Some? && WellFormed(ls + [Line(head, ParsePairs(texts).value)])
    ensures r.Accepted? ==> Recorded(ls + [Line(head, ParsePairs(texts).value)], r.value)
  {
    var t := t0;
    ghost var deps := [];
    for k := 0 to |texts|
      invariant ParsePairs(texts[..k]) == Some(deps)
      invariant WellFormed(ls + [Line(head, deps)]) && Recorded(ls + [Line(head, deps)], t)
    {
      if ParsePairs(texts).Some? && WellFormed(ls + [Line(head, ParsePairs(texts).value)]) {
        NextDepInOrder(ls, head, texts, k, deps);
      }
      var d := ParsePair(texts[k]);
      if d.None? {
        return Rejected(Unreadable);
      }
      AddDep(ls, t, head, deps, d.value);
      TraverseNext(texts, ParsePair, k, deps);
      var checked := CheckDependency(t, head, d.value);
      if checked.Rejected? {
        return checked;
      }
      t := checked.value;
      deps := deps + [d.value];
    }
    assert texts[..|texts|] == texts;
    return Accepted(t);
  }

  /** Checks the head of a line and records it. */
  method CheckHead(t: Tables, h: Pair) returns (r: Outcome<Tables>)
    ensures r.Accepted? <==> HeadOk(Line(h, [])) && h.name !in t.adj && VersionFits(t, h)
    ensures r.Accepted? ==> r.value == WithHead(t, h)
  {
    if !IsSemver(h.version) && h.version != UNRELEASED {
      return Rejected(BadVersion(h.name));
    }
    if !IsOmni(h.name) {
      return Rejected(NotOmni(h.name));
    }
    if h.name in t.adj {
      return Rejected(DuplicateEntry(h.name));
    }
    if h.name in t.versions && t.versions[h.name] != h.version {
      return Rejected(VersionMismatch(h.name));
    }
    return Accepted(WithHead(t, h));
  }

  method LoadLine(t: Tables, line: string, ghost ls: seq<Line>) returns (r: Outcome<Tables>)
    requires Recorded(ls, t) && WellFormed(ls)
    ensures r.Accepted? <==> ParseLine(line).Some? && WellFormed(ls + [ParseLine(line).value])
    ensures r.Accepted? ==> Recorded(ls + [ParseLine(line).value], r.value)
  {
    var head := ParsePair(Split(line, '#')[0]);
    if head.None? {
      return Rejected(Unreadable);
    }
    AddHead(ls, t, head.value);
    if ParseLine(line).Some? && WellFormed(ls + [ParseLine(line).value]) {
      WellFormedFewerDeps(ls, head.value, ParseLine(line).value.deps, 0);
      assert ParseLine(line).value.deps[..0] == [];
    }
    var checked := CheckHead(t, head.value);
    if checked.Rejected? {
      return checked;
    }
    r := LoadDependencies(checked.value, head.value, DependencyTexts(line), ls);
  }

  method LoadLines(lines: seq<string>) returns (r: Outcome<Tables>)
    ensures r.Accepted? <==> ParseLines(lines).Some? && WellFormed(ParseLines(lines).value)
    ensures r.Accepted? ==> Recorded(ParseLines(lines).value, r.value)
  {
    var t := Tables([], map[], [], map[]);
    ghost var ls := [];
    for k := 0 to |lines|
      invariant ParseLines(lines[..k]) == Some(ls) && WellFormed(ls) && Recorded(ls, t)
    {
      if ParseLines(lines).Some? && WellFormed(ParseLines(lines).value) {
        NextLineInOrder(lines, k, ls);
      }
      var loaded := LoadLine(t, lines[k], ls);
      if loaded.Rejected? {
        return loaded;
      }
      t := loaded.value;
      TraverseNext(lines, ParseLine, k, ls);
      ls := ls + [ParseLine(lines[k]).value];
    }
    assert lines[..|lines|] == lines;
    return Accepted(t);
  }

  // ---- the graph of a whole file ----

  /** The file's graph: its lines, and the unversioned dependencies without edges. */
  ghost predicate IsGraphOf(g: Digraph<string>, ls: seq<Line>, versions: map<string, string>) {
    && IsDict(g)
    && (forall n :: n in g.adj <==> IsHead(ls, n) || (n in versions && versions[n] == ANY_VERSION))
    && (forall l | l in ls && l.head.name in g.adj :: g.adj[l.head.name] == DepNames(l.deps))
    && (forall n | n in g.adj && !IsHead(ls, n) :: g.adj[n] == [])
  }

  lemma HeadsAreNodes(ls: seq<Line>, t: Tables, n: string)
    requires GraphRecorded(ls, t)
    ensures n in t.nodes <==> IsHead(ls, n)
  {
  }

  ghost predicate Foreign(t: Tables, done: seq<string>, n: string) {
    n in done && n in t.versions && t.versions[n] == ANY_VERSION
  }

  /** The tables' graph with the unversioned names among the done ones added. */
  ghost predicate Extended(t: Tables, done: seq<string>, g: Digraph<string>) {
    && IsDict(g)
    && (forall n :: n in g.adj <==> n in t.adj || Foreign(t, done, n))
    && (forall n | n in g.adj :: g.adj[n] == if n in t.adj then t.adj[n] else [])
  }

  lemma ExtendOne(t: Tables, done: seq<string>, g: Digraph<string>, e: string)
    requires Extended(t, done, g) && e in t.versions
    ensures Extended(t, done + [e],
                     if e !in g.adj && t.versions[e] == ANY_VERSION then Digraph(g.nodes + [e], g.adj[e := []]) else g)
  {
  }

  lemma ExtendedIsGraph(t: Tables, ls: seq<Line>, g: Digraph<string>)
    requires Recorded(ls, t) && WellFormed(ls) && Extended(t, t.names, g)
    ensures IsGraphOf(g, ls, t.versions)
  {
    forall n ensures n in t.nodes <==> IsHead(ls, n) {
      HeadsAreNodes(ls, t, n);
    }
    forall l | l in ls && l.head.name in g.adj ensures g.adj[l.head.name] == DepNames(l.deps) {
      var k :| 0 <= k < |ls| && ls[k] == l;
      assert t.nodes[k] in t.nodes;
    }
  }

  ghost predicate TablesFit(t: Tables) {
    IsDict(Digraph(t.nodes, t.adj)) && forall e | e in t.names :: e in t.versions
  }

  lemma RecordedFits(ls: seq<Line>, t: Tables)
    requires Recorded(ls, t) && WellFormed(ls)
    ensures TablesFit(t)
  {
  }

  /** Adds a node without edges for every unversioned dependency. */
  method ExtendGraph(t: Tables) returns (g: Digraph<string>)
    requires TablesFit(t)
    ensures Extended(t, t.names, g)
  {
    g := Digraph(t.nodes, t.adj);
    ghost var done := [];
    for i := 0 to |t.names|
      invariant done == t.names[..i] && Extended(t, done, g)
    {
      var e := t.names[i];
      ExtendOne(t, done, g, e);
      if e !in g.adj && t.versions[e] == ANY_VERSION {
        g := Digraph(g.nodes + [e], g.adj[e := []]);
      }
      done := done + [e];
    }
    assert done == t.names;
  }

  method AddForeign(t: Tables, ghost ls: seq<Line>) returns (g: Digraph<string>)
    requires Recorded(ls, t) && WellFormed(ls)
    ensures IsGraphOf(g, ls, t.versions)
  {
    RecordedFits(ls, t);
    g := ExtendGraph(t);
    ExtendedIsGraph(t, ls, g);
  }

  lemma GraphEdge(g: Digraph<string>, ls: seq<Line>, versions: map<string, string>, a: string, b: string)
    requires IsGraphOf(g, ls, versions)
    ensures Edge(g, a, b) <==> DependsOn(ls, a, b)
  {
    if Edge(g, a, b) {
      assert IsHead(ls, a);
      var l :| l in ls && l.head.name == a;
      var k :| 0 <= k < |l.deps| && DepNames(l.deps)[k] == b;
      assert l.deps[k] in l.deps;
    }
    if l, d :| l in ls && l.head.name == a && d in l.deps && d.name == b {
      assert IsHead(ls, a);
      var k :| 0 <= k < |l.deps| && l.deps[k] == d;
      assert DepNames(l.deps)[k] in DepNames(l.deps);
    }
  }

  lemma StarIsNoVersion()
    ensures !IsVersion(ANY_VERSION)
  {
  }

  // A dependency is a node exactly when it has a line or is not an omni extension.
  lemma DependencyIsNode(g: Digraph<string>, ls: seq<Line>, t: Tables, a: string, b: string)
    requires IsGraphOf(g, ls, t.versions) && WellFormed(ls) && VersionsRecorded(ls, t) && DependsOn(ls, a, b)
    ensures b in g.adj <==> !IsOmni(b) || IsHead(ls, b)
  {
    var l, d :| l in ls && l.head.name == a && d in l.deps && d.name == b;
    assert Mentions(ls, d) && LineOk(l) && DepOk(l.head, d);
    StarIsNoVersion();
  }

  /** Every neighbour has a node exactly when every omni dependency has a line. */
  lemma GraphClosedIff(g: Digraph<string>, ls: seq<Line>, t: Tables)
    requires IsGraphOf(g, ls, t.versions) && WellFormed(ls) && VersionsRecorded(ls, t)
    ensures Closed(g) <==> Complete(ls)
  {
    forall a, b ensures Edge(g, a, b) <==> DependsOn(ls, a, b) {
      GraphEdge(g, ls, t.versions, a, b);
    }
    forall a, b | DependsOn(ls, a, b) ensures b in g.adj <==> !IsOmni(b) || IsHead(ls, b) {
      DependencyIsNode(g, ls, t, a, b);
    }
  }

  lemma GraphCycleIff(g: Digraph<string>, ls: seq<Line>, versions: map<string, string>)
    requires IsGraphOf(g, ls, versions)
    ensures HasCycle(g) <==> Circular(ls)
  {
    if p :| IsCycle(g, p) {
      forall i | 0 <= i < |p| - 1 ensures DependsAt(ls, p, i) {
        assert EdgeAt(g, p, i);
        GraphEdge(g, ls, versions, p[i], p[i + 1]);
      }
      assert IsCircle(ls, p);
    }
    if p :| IsCircle(ls, p) {
      forall i | 0 <= i < |p| - 1 ensures EdgeAt(g, p, i) {
        assert DependsAt(ls, p, i);
        GraphEdge(g, ls, versions, p[i], p[i + 1]);
      }
      assert IsCycle(g, p);
    }
  }

  // ---- selecting the release ----

  predicate IsReleased(versions: map<string, string>, n: string) {
    IsOmni(n) && n in versions && IsSemver(versions[n])
  }

  function Selected(order: seq<string>, versions: map<string, string>): seq<Pair> {
    if order == [] then []
    else
      var n := |order| - 1;
      Selected(order[..n], versions) + if IsReleased(versions, order[n]) then [Pair(order[n], versions[order[n]])] else []
  }

  lemma {:induction false} SelectedElements(order: seq<string>, versions: map<string, string>)
    requires Distinct(order)
    ensures var rel := Selected(order, versions);
            && (forall p :: p in rel <==> p.name in order && IsReleased(versions, p.name) && p.version == versions[p.name])
            && (forall i, j | 0 <= i < j < |rel| :: rel[i].name != rel[j].name)
    decreases |order|
  {
    if order != [] {
      var n := |order| - 1;
      SelectedElements(order[..n], versions);
      assert order == order[..n] + [order[n]];
      assert order[n] !in order[..n];
      var front := Selected(order[..n], versions);
      assert forall i | 0 <= i < |front| :: front[i] in front;
    }
  }

  /** Selecting keeps the order. */
  lemma {:induction false} SelectedKeepsOrder(order: seq<string>, versions: map<string, string>, a: nat, b: nat)
    requires Distinct(order) && a < b < |order| && IsReleased(versions, order[a]) && IsReleased(versions, order[b])
    ensures Before(Selected(order, versions), Pair(order[a], versions[order[a]]), Pair(order[b], versions[order[b]]))
    decreases |order|
  {
    var n := |order| - 1;
    var front, rel := Selected(order[..n], versions), Selected(order, versions);
    var p, q := Pair(order[a], versions[order[a]]), Pair(order[b], versions[order[b]]);
    if b < n {
      SelectedKeepsOrder(order[..n], versions, a, b);
      var i, j :| 0 <= i < j < |front| && front[i] == p && front[j] == q;
      assert rel[i] == p && rel[j] == q;
    } else {
      SelectedElements(order[..n], versions);
      assert order[..n][a] in order[..n];
      var i :| 0 <= i < |front| && front[i] == p;
      assert rel[i] == p && rel[|front|] == q;
    }
  }

  lemma HeadsOfRelease(ls: seq<Line>, t: Tables, p: Pair)
    requires WellFormed(ls) && VersionsRecorded(ls, t)
    ensures (IsHead(ls, p.name) && IsReleased(t.versions, p.name) && p.version == t.versions[p.name])
       <==> IsSemver(p.version) && exists l :: l in ls && l.head == p
  {
    if l :| l in ls && l.head == p {
      assert Mentions(ls, p) && LineOk(l);
    }
    if l :| l in ls && l.head.name == p.name {
      assert Mentions(ls, l.head);
    }
  }

  // A dependency of a released extension is released too, at the version the dependent asks for.
  lemma DependencyIsReleased(ls: seq<Line>, t: Tables, l: Line, d: Pair)
    requires WellFormed(ls) && VersionsRecorded(ls, t) && Complete(ls)
    requires l in ls && IsSemver(l.head.version) && d in l.deps && IsOmni(d.name)
    ensures IsHead(ls, d.name) && IsReleased(t.versions, d.name) && t.versions[d.name] == d.version
  {
    assert LineOk(l) && DepOk(l.head, d);
    assert Mentions(ls, d);
    assert DependsOn(ls, l.head.name, d.name);
  }

  lemma DependencyComesLater(g: Digraph<string>, ls: seq<Line>, t: Tables, order: seq<string>, l: Line, d: Pair)
    requires IsGraphOf(g, ls, t.versions) && WellFormed(ls) && VersionsRecorded(ls, t) && Complete(ls)
    requires IsTopological(g, order) && Distinct(order) && (forall n :: n in order <==> n in g.adj)
    requires l in ls && IsSemver(l.head.version) && d in l.deps && IsOmni(d.name)
    ensures Before(Selected(order, t.versions), l.head, d)
  {
    DependencyIsReleased(ls, t, l, d);
    assert Mentions(ls, l.head) && LineOk(l) && IsHead(ls, l.head.name);
    assert l.head.name in order && d.name in order;
    var a :| 0 <= a < |order| && order[a] == l.head.name;
    var b :| 0 <= b < |order| && order[b] == d.name;
    assert DependsOn(ls, l.head.name, d.name);
    GraphEdge(g, ls, t.versions, l.head.name, d.name);
    SelectedKeepsOrder(order, t.versions, a, b);
  }

  lemma SelectionIsRelease(g: Digraph<string>, ls: seq<Line>, t: Tables, order: seq<string>)
    requires IsGraphOf(g, ls, t.versions) && WellFormed(ls) && VersionsRecorded(ls, t) && Complete(ls)
    requires IsTopological(g, order) && Distinct(order) && (forall n :: n in order <==> n in g.adj)
    ensures IsRelease(ls, Selected(order, t.versions))
  {
    var rel := Selected(order, t.versions);
    SelectedElements(order, t.versions);
    forall p ensures p in rel <==> IsSemver(p.version) && exists l :: l in ls && l.head == p {
      HeadsOfRelease(ls, t, p);
      if p in rel && !IsHead(ls, p.name) {
        StarIsNoVersion();
        assert false;
      }
    }
    forall l, d | l in ls && l.head in rel && d in l.deps && IsOmni(d.name) ensures Before(rel, l.head, d) {
      DependencyComesLater(g, ls, t, order, l, d);
    }
  }

  lemma PermutationFacts(g: Digraph<string>, order: seq<string>)
    requires IsDict(g) && multiset(order) == multiset(g.nodes)
    ensures Distinct(order) && forall n :: n in order <==> n in g.adj
  {
    DistinctSize(g.nodes);
    forall n ensures n in order <==> n in g.adj {
      assert n in multiset(order) <==> n in multiset(g.nodes);
    }
    forall i, j | 0 <= i < j < |order| ensures order[i] != order[j] {
      RepeatCountsTwice(order, i, j);
    }
  }

  lemma RepeatCountsTwice(order: seq<string>, i: nat, j: nat)
    requires i < j < |order|
    ensures order[i] == order[j] ==> multiset(order)[order[j]] >= 2
  {
    assert order == order[..j] + [order[j]] + order[j + 1..];
    assert order[..j][i] in order[..j];
  }

  /** The checker accepts exactly the files in order, and what it lists is a
      release of them. */
  method CheckExtensionArtifacts(lines: seq<string>) returns (r: Outcome<seq<string>>, ghost rel: seq<Pair>)
    ensures r.Accepted? <==> Acceptable(lines)
    ensures r.Accepted? ==> IsRelease(ParseLines(lines).value, rel) && r.value == PrintPairs(rel)
  {
    var loaded := LoadLines(lines);
    if loaded.Rejected? {
      return Rejected(loaded.reason), [];
    }
    var t := loaded.value;
    ghost var ls := ParseLines(lines).value;
    var g := AddForeign(t, ls);
    GraphClosedIff(g, ls, t);
    GraphCycleIff(g, ls, t.versions);
    var sorted := Sort(g);
    match sorted {
      case MissingEntry(name) => return Rejected(MissingLine(name)), [];
      case CycleFound => return Rejected(DependencyCycle), [];
      case Sorted(order) =>
        PermutationFacts(g, order);
        var texts := SelectReleased(order, t.versions);
        SelectionIsRelease(g, ls, t, order);
        return Accepted(texts), Selected(order, t.versions);
    }
  }

  method SelectReleased(order: seq<string>, versions: map<string, string>) returns (texts: seq<string>)
    ensures texts == PrintPairs(Selected(order, versions))
  {
    texts := [];
    for i := 0 to |order|
      invariant texts == PrintPairs(Selected(order[..i], versions))
    {
      assert order[..i + 1][..i] == order[..i];
      var ext := order[i];
      if IsOmni(ext) && ext in versions && IsSemver(versions[ext]) {
        texts := texts + [ext + "=" + versions[ext]];
      }
    }
    assert order[..|order|] == order;
  }
}
