/** The whitespace normalization that the copy command applies to every file
    whose extension is not `.json` (src/commands.ts, lines 44-61): split into
    lines, keep each line's indentation, squeeze runs of spaces and strip the
    trailing whitespace of the rest of the line, join with '\n', collapse runs
    of three or more newlines to two, trim the whole text. */
module TextNormalize {

  /** JavaScript's `\s` class, which is also the set of code points that
      `String.prototype.trim` and `trimEnd` remove (WhiteSpace and
      LineTerminator of ECMA-262). */
  predicate IsSpace(c: char) {
    var n := c as int;
    n == 0x09 || n == 0x0A || n == 0x0B || n == 0x0C || n == 0x0D || n == 0x20
    || n == 0xA0 || n == 0x1680 || (0x2000 <= n <= 0x200A) || n == 0x2028
    || n == 0x2029 || n == 0x202F || n == 0x205F || n == 0x3000 || n == 0xFEFF
  }

  predicate IsLineBreak(c: char) {
    c == '\r' || c == '\n'
  }

  // ---------------------------------------------------------------------
  // The stages of the transform, each as the string operation the code uses
  // ---------------------------------------------------------------------

  /** `text.split(/\r\n|\r|\n/)`: the alternation tries "\r\n" first, so a
      CR LF pair is one separator. An empty text gives one empty line. */
  function SplitLines(text: string): (lines: seq<string>)
    ensures |lines| >= 1
    ensures forall l :: l in lines ==> '\n' !in l && '\r' !in l
  {
    if text == [] then [[]]
    else if text[0] == '\r' && |text| >= 2 && text[1] == '\n' then [[]] + SplitLines(text[2..])
    else if IsLineBreak(text[0]) then [[]] + SplitLines(text[1..])
    else
      var tail := SplitLines(text[1..]);
      [[text[0]] + tail[0]] + tail[1..]
  }

  /** `lines.join('\n')`. */
  function JoinLines(lines: seq<string>): string {
    if lines == [] then []
    else if |lines| == 1 then lines[0]
    else lines[0] + "\n" + JoinLines(lines[1..])
  }

  /** The match of `/^(\s*)/`: the longest prefix made of whitespace. */
  function Indentation(line: string): (ind: string)
    ensures ind <= line
    ensures forall i :: 0 <= i < |ind| ==> IsSpace(ind[i])
    ensures |ind| < |line| ==> !IsSpace(line[|ind|])
  {
    if line != [] && IsSpace(line[0]) then [line[0]] + Indentation(line[1..]) else []
  }

  /** `s.replace(/ {2,}/g, ' ')`: every run of two or more U+0020 spaces
      becomes one space; dropping the first space of a double space until
      one is left has the same effect. */
  function SqueezeSpaces(s: string): string {
    if s == [] then []
    else if |s| >= 2 && s[0] == ' ' && s[1] == ' ' then SqueezeSpaces(s[1..])
    else [s[0]] + SqueezeSpaces(s[1..])
  }

  /** `s.trimEnd()`. */
  function TrimEnd(s: string): (r: string)
    ensures |r| <= |s| && r == s[..|r|]
    ensures r == [] || !IsSpace(r[|r| - 1])
    ensures forall i :: |r| <= i < |s| ==> IsSpace(s[i])
  {
    if s != [] && IsSpace(s[|s| - 1]) then TrimEnd(s[..|s| - 1]) else s
  }

  /** The leading half of `s.trim()`. */
  function TrimStart(s: string): (r: string)
    ensures |r| <= |s| && r == s[|s| - |r|..]
    ensures r == [] || !IsSpace(r[0])
    ensures forall i :: 0 <= i < |s| - |r| ==> IsSpace(s[i])
  {
    if s != [] && IsSpace(s[0]) then TrimStart(s[1..]) else s
  }

  /** `s.trim()`. */
  function Trim(s: string): string {
    TrimStart(TrimEnd(s))
  }

  /** The callback of `lines.map(...)` (lines 45-55): indentation verbatim,
      then the rest squeezed and stripped at its end. */
  function NormalizeLine(line: string): string {
    var ind := Indentation(line);
    ind + TrimEnd(SqueezeSpaces(line[|ind|..]))
  }

  function NormalizeLines(lines: seq<string>): (r: seq<string>)
    ensures |r| == |lines|
  {
    if lines == [] then [] else [NormalizeLine(lines[0])] + NormalizeLines(lines[1..])
  }

  /** `s.replace(/(\n){3,}/g, '\n\n')`: every run of three or more newlines
      becomes two. */
  function CollapseBlankLines(s: string): string {
    if s == [] then []
    else if |s| >= 3 && s[0] == '\n' && s[1] == '\n' && s[2] == '\n' then CollapseBlankLines(s[1..])
    else [s[0]] + CollapseBlankLines(s[1..])
  }

  /** The whole non-JSON branch of the copy command, lines 44-61. */
  function NormalizeText(text: string): string {
    Trim(CollapseBlankLines(JoinLines(NormalizeLines(SplitLines(text)))))
  }

  // ---------------------------------------------------------------------
  // The normal form the transform produces
  // ---------------------------------------------------------------------

  predicate NoDoubleSpace(s: string) {
    forall i :: 0 <= i < |s| - 1 ==> !(s[i] == ' ' && s[i + 1] == ' ')
  }

  predicate NoTripleNewline(s: string) {
    forall i :: 0 <= i < |s| - 2 ==> !(s[i] == '\n' && s[i + 1] == '\n' && s[i + 2] == '\n')
  }

  predicate Trimmed(s: string) {
    s == [] || (!IsSpace(s[0]) && !IsSpace(s[|s| - 1]))
  }

  /** A line is normal when, after its indentation, it has no double space
      and does not end in whitespace. A whitespace-only line is normal. */
  predicate LineNormal(line: string) {
    var rest := line[|Indentation(line)|..];
    NoDoubleSpace(rest) && (rest == [] || !IsSpace(rest[|rest| - 1]))
  }

  /** The index of the first '\n', or the length when there is none. */
  function LineEnd(s: string): (k: nat)
    ensures k <= |s|
    ensures '\n' !in s[..k]
    ensures k < |s| ==> s[k] == '\n'
  {
    if s == [] || s[0] == '\n' then 0 else 1 + LineEnd(s[1..])
  }

  /** Every '\n'-separated line of `s` is normal. */
  predicate LinesNormal(s: string)
    decreases |s|
  {
    var k := LineEnd(s);
    LineNormal(s[..k]) && (k < |s| ==> LinesNormal(s[k + 1..]))
  }

  /** What the transform guarantees of its output. */
  predicate NormalForm(s: string) {
    '\r' !in s && NoTripleNewline(s) && Trimmed(s) && LinesNormal(s)
  }

  // ---------------------------------------------------------------------
  // Splitting and joining
  // ---------------------------------------------------------------------

  lemma {:induction false} SplitLinesNoBreak(s: string)
    requires '\n' !in s && '\r' !in s
    ensures SplitLines(s) == [s]
  {
    if s != [] {
      SplitLinesNoBreak(s[1..]);
      assert [s[0]] + s[1..] == s;
    }
  }

  lemma {:induction false} SplitLinesFirst(p: string, r: string)
    requires '\n' !in p && '\r' !in p
    ensures SplitLines(p + "\n" + r) == [p] + SplitLines(r)
  {
    if p == [] {
      assert p + "\n" + r == "\n" + r;
      assert ("\n" + r)[1..] == r;
    } else {
      SplitLinesFirst(p[1..], r);
      assert (p + "\n" + r)[1..] == p[1..] + "\n" + r;
      assert [p[0]] + p[1..] == p;
    }
  }

  lemma JoinLinesCons(l: string, rest: seq<string>)
    ensures JoinLines([l] + rest) == l + (if rest == [] then [] else "\n" + JoinLines(rest))
  {
    assert ([l] + rest)[1..] == rest;
  }

  /** Without carriage returns, joining the split lines with '\n' gives the
      text back. */
  lemma {:induction false} JoinSplitLines(text: string)
    requires '\r' !in text
    ensures JoinLines(SplitLines(text)) == text
  {
    if text != [] {
      var rest := text[1..];
      assert '\r' !in rest by {
        forall c | c in rest ensures c != '\r' {
          assert c in text;
        }
      }
      JoinSplitLines(rest);
      var tail := SplitLines(rest);
      if text[0] == '\n' {
        JoinLinesCons([], tail);
      } else {
        assert text[0] in text;
        JoinLinesPrefix([text[0]], tail[0], tail[1..]);
        assert [tail[0]] + tail[1..] == tail;
        assert text == [text[0]] + rest;
      }
    }
  }

  lemma {:induction false} LineEndWhole(s: string)
    requires '\n' !in s
    ensures LineEnd(s) == |s|
  {
    if s != [] {
      assert s[0] in s;
      LineEndWhole(s[1..]);
    }
  }

  lemma {:induction false} LineEndConcat(a: string, b: string)
    ensures LineEnd(a + b) == if LineEnd(a) < |a| then LineEnd(a) else |a| + LineEnd(b)
  {
    if a == [] {
      assert a + b == b;
    } else {
      assert (a + b)[0] == a[0];
      if a[0] != '\n' {
        assert (a + b)[1..] == a[1..] + b;
        LineEndConcat(a[1..], b);
      }
    }
  }

  lemma LineEndOfJoin(p: string, q: string)
    requires '\n' !in p
    ensures LineEnd(p + "\n" + q) == |p|
  {
    LineEndWhole(p);
    assert p + "\n" + q == p + ("\n" + q);
    LineEndConcat(p, "\n" + q);
  }

  lemma {:induction false} JoinLinesNormal(lines: seq<string>)
    requires forall l :: l in lines ==> '\n' !in l && LineNormal(l)
    ensures LinesNormal(JoinLines(lines))
  {
    if |lines| == 1 {
      assert lines[0] in lines;
      var s := lines[0];
      assert s[..LineEnd(s)] == s;
    } else if |lines| > 1 {
      var p := lines[0];
      assert p in lines;
      var q := JoinLines(lines[1..]);
      forall l | l in lines[1..] ensures '\n' !in l && LineNormal(l) {
        assert l in lines;
      }
      JoinLinesNormal(lines[1..]);
      LineEndOfJoin(p, q);
      var s := p + "\n" + q;
      assert s[..|p|] == p;
      assert s[|p| + 1..] == q;
    }
  }

  // ---------------------------------------------------------------------
  // One line
  // ---------------------------------------------------------------------

  lemma {:induction false} SqueezeSpacesHead(s: string)
    requires s != []
    ensures SqueezeSpaces(s) != [] && SqueezeSpaces(s)[0] == s[0]
  {
    if |s| >= 2 && s[0] == ' ' && s[1] == ' ' {
      SqueezeSpacesHead(s[1..]);
    }
  }

  lemma {:induction false} SqueezeSpacesNoDouble(s: string)
    ensures NoDoubleSpace(SqueezeSpaces(s))
  {
    if s != [] {
      SqueezeSpacesNoDouble(s[1..]);
      if !(|s| >= 2 && s[0] == ' ' && s[1] == ' ') {
        var t := SqueezeSpaces(s[1..]);
        if s[1..] != [] {
          SqueezeSpacesHead(s[1..]);
        }
        var r := [s[0]] + t;
        forall i | 0 <= i < |r| - 1 ensures !(r[i] == ' ' && r[i + 1] == ' ') {
          if i > 0 {
            assert r[i] == t[i - 1] && r[i + 1] == t[i];
          }
        }
      }
    }
  }

  lemma {:induction false} SqueezeSpacesFixed(s: string)
    requires NoDoubleSpace(s)
    ensures SqueezeSpaces(s) == s
  {
    if s != [] {
      assert NoDoubleSpace(s[1..]) by {
        forall i | 0 <= i < |s[1..]| - 1 ensures !(s[1..][i] == ' ' && s[1..][i + 1] == ' ') {
          assert s[1..][i] == s[i + 1] && s[1..][i + 1] == s[i + 2];
        }
      }
      SqueezeSpacesFixed(s[1..]);
      assert !(s[0] == ' ' && |s| >= 2 && s[1] == ' ');
      assert [s[0]] + s[1..] == s;
    }
  }

  lemma {:induction false} SqueezeSpacesChars(s: string)
    ensures forall c :: c in SqueezeSpaces(s) ==> c in s
  {
    if s != [] {
      SqueezeSpacesChars(s[1..]);
    }
  }

  /** Squeezing changes a string exactly when it holds a double space. */
  lemma SqueezeSpacesUnchangedIff(s: string)
    ensures SqueezeSpaces(s) == s <==> NoDoubleSpace(s)
  {
    if NoDoubleSpace(s) {
      SqueezeSpacesFixed(s);
    } else {
      SqueezeSpacesNoDouble(s);
    }
  }

  lemma {:induction false} IndentationOfConcat(a: string, b: string)
    requires forall i :: 0 <= i < |a| ==> IsSpace(a[i])
    requires b == [] || !IsSpace(b[0])
    ensures Indentation(a + b) == a
  {
    if a != [] {
      assert (a + b)[1..] == a[1..] + b;
      IndentationOfConcat(a[1..], b);
      assert [a[0]] + a[1..] == a;
    }
  }

  lemma NoDoubleSpacePrefix(s: string, k: nat)
    requires k <= |s| && NoDoubleSpace(s)
    ensures NoDoubleSpace(s[..k])
  {
    forall i | 0 <= i < k - 1 ensures !(s[..k][i] == ' ' && s[..k][i + 1] == ' ') {
      assert s[..k][i] == s[i] && s[..k][i + 1] == s[i + 1];
    }
  }

  /** The per-line map keeps the line's indentation, and what follows it has
      no double space and no trailing whitespace; a normal line, in
      particular a whitespace-only one, comes back unchanged; every
      non-whitespace character survives, in order. */
  lemma NormalizeLineSpec(line: string)
    ensures Indentation(NormalizeLine(line)) == Indentation(line)
    ensures LineNormal(NormalizeLine(line))
    ensures LineNormal(line) ==> NormalizeLine(line) == line
    ensures forall c :: c in NormalizeLine(line) ==> c in line
    ensures NonSpace(NormalizeLine(line)) == NonSpace(line)
  {
    assert NonSpace(NormalizeLine(line)) == NonSpace(line) by {
      NormalizeLineKeepsContent(line);
    }
    var ind := Indentation(line);
    var rest := line[|ind|..];
    var sq := SqueezeSpaces(rest);
    var c := TrimEnd(sq);
    assert line == ind + rest;
    if rest != [] {
      SqueezeSpacesHead(rest);
      assert !IsSpace(sq[0]);
      assert c != [] && c[0] == sq[0];
    }
    IndentationOfConcat(ind, c);
    assert (ind + c)[|ind|..] == c;
    SqueezeSpacesNoDouble(rest);
    NoDoubleSpacePrefix(sq, |c|);
    SqueezeSpacesChars(rest);
    forall ch | ch in ind + c ensures ch in line {
      if ch in c {
        assert ch in sq;
      }
    }
    if LineNormal(line) {
      SqueezeSpacesFixed(rest);
    }
  }

  /** The normal lines are exactly the fixed points of the per-line map. */
  lemma NormalizeLineFixedIff(line: string)
    ensures NormalizeLine(line) == line <==> LineNormal(line)
  {
    NormalizeLineSpec(line);
  }

  lemma {:induction false} NormalizeLinesSpec(lines: seq<string>)
    requires forall l :: l in lines ==> '\n' !in l && '\r' !in l
    ensures forall l :: l in NormalizeLines(lines) ==> '\n' !in l && '\r' !in l && LineNormal(l)
  {
    if lines != [] {
      assert lines[0] in lines;
      NormalizeLineSpec(lines[0]);
      forall l | l in lines[1..] ensures '\n' !in l && '\r' !in l {
        assert l in lines;
      }
      NormalizeLinesSpec(lines[1..]);
    }
  }

  lemma {:induction false} JoinLinesChars(lines: seq<string>)
    requires forall l :: l in lines ==> '\r' !in l
    ensures '\r' !in JoinLines(lines)
  {
    if |lines| > 1 {
      assert lines[0] in lines;
      forall l | l in lines[1..] ensures '\r' !in l {
        assert l in lines;
      }
      JoinLinesChars(lines[1..]);
    } else if |lines| == 1 {
      assert lines[0] in lines;
    }
  }

  // ---------------------------------------------------------------------
  // Collapsing blank lines
  // ---------------------------------------------------------------------

  lemma {:induction false} CollapseHead(s: string)
    requires s != []
    ensures CollapseBlankLines(s) != [] && CollapseBlankLines(s)[0] == s[0]
  {
    if |s| >= 3 && s[0] == '\n' && s[1] == '\n' && s[2] == '\n' {
      CollapseHead(s[1..]);
    }
  }

  lemma {:induction false} CollapseEmpty(s: string)
    ensures CollapseBlankLines(s) == [] <==> s == []
  {
    if s != [] {
      CollapseHead(s);
    }
  }

  lemma {:induction false} CollapseNoTriple(s: string)
    ensures NoTripleNewline(CollapseBlankLines(s))
  {
    if s != [] {
      CollapseNoTriple(s[1..]);
      if !(|s| >= 3 && s[0] == '\n' && s[1] == '\n' && s[2] == '\n') {
        var u := s[1..];
        var t := CollapseBlankLines(u);
        var r := [s[0]] + t;
        if u != [] {
          CollapseHead(u);
          if |u| >= 2 {
            CollapseHead(u[1..]);
            if !(|u| >= 3 && u[0] == '\n' && u[1] == '\n' && u[2] == '\n') {
              assert t == [u[0]] + CollapseBlankLines(u[1..]);
              assert t[1] == u[1];
            }
          } else {
            assert u[1..] == [];
            assert t == [u[0]];
          }
        }
        forall i | 0 <= i < |r| - 2 ensures !(r[i] == '\n' && r[i + 1] == '\n' && r[i + 2] == '\n') {
          if i > 0 {
            assert r[i] == t[i - 1] && r[i + 1] == t[i] && r[i + 2] == t[i + 1];
          }
        }
      }
    }
  }

  lemma {:induction false} CollapseFixed(s: string)
    requires NoTripleNewline(s)
    ensures CollapseBlankLines(s) == s
  {
    if s != [] {
      assert NoTripleNewline(s[1..]) by {
        forall i | 0 <= i < |s[1..]| - 2
          ensures !(s[1..][i] == '\n' && s[1..][i + 1] == '\n' && s[1..][i + 2] == '\n')
        {
          assert s[1..][i] == s[i + 1];
        }
      }
      CollapseFixed(s[1..]);
      assert [s[0]] + s[1..] == s;
    }
  }

  lemma {:induction false} CollapseChars(s: string)
    ensures forall c :: c in CollapseBlankLines(s) ==> c in s
  {
    if s != [] {
      CollapseChars(s[1..]);
    }
  }

  /** Collapsing passes a prefix without newlines through untouched. */
  lemma {:induction false} CollapseSkipsLine(p: string, q: string)
    requires '\n' !in p
    ensures CollapseBlankLines(p + q) == p + CollapseBlankLines(q)
  {
    if p != [] {
      assert p[0] in p;
      var s := p + q;
      assert s[0] == p[0] && s[0] != '\n';
      assert s[1..] == p[1..] + q;
      assert '\n' !in p[1..] by {
        forall c | c in p[1..] ensures c != '\n' {
          assert c in p;
        }
      }
      CollapseSkipsLine(p[1..], q);
      calc {
        CollapseBlankLines(s);
        [p[0]] + CollapseBlankLines(p[1..] + q);
        [p[0]] + (p[1..] + CollapseBlankLines(q));
        ([p[0]] + p[1..]) + CollapseBlankLines(q);
        { assert [p[0]] + p[1..] == p; }
        p + CollapseBlankLines(q);
      }
    } else {
      assert p + q == q;
    }
  }

  lemma LinesNormalAfterNewline(r: string)
    ensures LinesNormal("\n" + r) <==> LinesNormal(r)
  {
    var s := "\n" + r;
    assert LineEnd(s) == 0;
    assert s[..0] == [];
    assert s[1..] == r;
  }

  lemma LinesNormalJoin(p: string, q: string)
    requires '\n' !in p && LineNormal(p) && LinesNormal(q)
    ensures LinesNormal(p + "\n" + q)
  {
    LineEndOfJoin(p, q);
    var t := p + "\n" + q;
    assert t[..|p|] == p;
    assert t[|p| + 1..] == q;
  }

  lemma SplitAround(s: string, k: nat)
    requires k < |s|
    ensures s == s[..k] + ([s[k]] + s[k + 1..])
  {
    assert s[k..] == [s[k]] + s[k + 1..];
    assert s == s[..k] + s[k..];
  }

  /** Collapsing a text whose first line ends in a newline passes that line
      through and collapses from the newline on. */
  lemma CollapseAtLine(s: string)
    requires LineEnd(s) < |s|
    ensures CollapseBlankLines(s) == s[..LineEnd(s)] + CollapseBlankLines("\n" + s[LineEnd(s) + 1..])
  {
    var k := LineEnd(s);
    SplitAround(s, k);
    assert [s[k]] == "\n";
    CollapseSkipsLine(s[..k], "\n" + s[k + 1..]);
  }

  lemma JoinAfterNewline(p: string, x: string)
    requires '\n' !in p && LineNormal(p)
    requires x != [] && x[0] == '\n' && LinesNormal(x[1..])
    ensures LinesNormal(p + x)
  {
    assert x == "\n" + x[1..];
    assert p + x == p + "\n" + x[1..];
    LinesNormalJoin(p, x[1..]);
  }

  lemma {:induction false} CollapsePreservesLines(s: string)
    requires LinesNormal(s)
    ensures LinesNormal(CollapseBlankLines(s))
    decreases |s|, 1
  {
    var k := LineEnd(s);
    if k == |s| {
      assert s[..k] == s;
      CollapseSkipsLine(s, []);
      assert s + [] == s;
    } else {
      var r := s[k + 1..];
      CollapseAtLine(s);
      CollapseAfterNewline(r);
      JoinAfterNewline(s[..k], CollapseBlankLines("\n" + r));
    }
  }

  lemma {:induction false} CollapseAfterNewline(r: string)
    requires LinesNormal(r)
    ensures CollapseBlankLines("\n" + r) != []
    ensures CollapseBlankLines("\n" + r)[0] == '\n'
    ensures LinesNormal(CollapseBlankLines("\n" + r)[1..])
    decreases |r| + 1, 0
  {
    var s := "\n" + r;
    assert s[1..] == r;
    if |r| >= 2 && r[0] == '\n' && r[1] == '\n' {
      LinesNormalAfterNewline(r[1..]);
      assert r == "\n" + r[1..];
      CollapseAfterNewline(r[1..]);
    } else {
      CollapsePreservesLines(r);
    }
  }

  // ---------------------------------------------------------------------
  // Trimming
  // ---------------------------------------------------------------------

  lemma {:induction false} LineNormalTail(line: string)
    requires line != [] && LineNormal(line)
    ensures LineNormal(line[1..])
  {
    var t := line[1..];
    if !IsSpace(line[0]) {
      assert Indentation(line) == [];
      var ind := Indentation(t);
      var rest := t[|ind|..];
      assert rest == line[1 + |ind|..];
      forall i | 0 <= i < |rest| - 1 ensures !(rest[i] == ' ' && rest[i + 1] == ' ') {
        assert rest[i] == line[1 + |ind| + i] && rest[i + 1] == line[1 + |ind| + i + 1];
      }
      if rest != [] {
        assert rest[|rest| - 1] == line[|line| - 1];
      }
    }
  }

  /** Dropping a character of the first line, when that line is not empty. */
  lemma LinesNormalTailInLine(s: string)
    requires s != [] && LineEnd(s) > 0 && LinesNormal(s)
    ensures LinesNormal(s[1..])
  {
    var k := LineEnd(s);
    var t := s[1..];
    assert LineEnd(t) == k - 1;
    assert t[..k - 1] == s[..k][1..];
    LineNormalTail(s[..k]);
    if k - 1 < |t| {
      assert t[k..] == s[k + 1..];
    }
  }

  lemma LinesNormalTail(s: string)
    requires s != [] && LinesNormal(s)
    ensures LinesNormal(s[1..])
  {
    if LineEnd(s) > 0 {
      LinesNormalTailInLine(s);
    } else {
      assert s[LineEnd(s) + 1..] == s[1..];
    }
  }

  lemma {:induction false} TrimStartPreservesLines(s: string)
    requires LinesNormal(s)
    ensures LinesNormal(TrimStart(s))
  {
    if s != [] && IsSpace(s[0]) {
      LinesNormalTail(s);
      TrimStartPreservesLines(s[1..]);
    }
  }

  lemma LineNormalDropSpace(line: string, c: char)
    requires IsSpace(c) && LineNormal(line + [c])
    ensures LineNormal(line)
  {
    var l := line + [c];
    var ind := Indentation(l);
    assert |ind| == |l|;
    assert forall i :: 0 <= i < |line| ==> line[i] == ind[i];
  }

  lemma {:induction false} LinesNormalDropSpace(s: string, c: char)
    requires IsSpace(c) && LinesNormal(s + [c])
    ensures LinesNormal(s)
    decreases |s|
  {
    var t := s + [c];
    var k := LineEnd(s);
    LineEndConcat(s, [c]);
    if k < |s| {
      assert t[..k] == s[..k];
      assert t[k + 1..] == s[k + 1..] + [c];
      LinesNormalDropSpace(s[k + 1..], c);
    } else {
      assert s[..k] == s;
      if c == '\n' {
        assert t[..|s|] == s;
      } else {
        assert t[..|t|] == t;
        LineNormalDropSpace(s, c);
      }
    }
  }

  lemma {:induction false} TrimEndPreservesLines(s: string)
    requires LinesNormal(s)
    ensures LinesNormal(TrimEnd(s))
  {
    if s != [] && IsSpace(s[|s| - 1]) {
      var p := s[..|s| - 1];
      assert p + [s[|s| - 1]] == s;
      LinesNormalDropSpace(p, s[|s| - 1]);
      TrimEndPreservesLines(p);
    }
  }

  /** `Trim(s)` is the slice of `s` between the cut whitespace. */
  lemma TrimSlice(s: string) returns (a: nat, b: nat)
    ensures a <= b <= |s| && Trim(s) == s[a..b]
    ensures Trimmed(Trim(s))
  {
    var e := TrimEnd(s);
    var r := TrimStart(e);
    a, b := |e| - |r|, |e|;
    assert e == s[..b];
    assert r == e[a..];
    assert r == s[a..b];
    if r != [] {
      assert r[|r| - 1] == e[|e| - 1];
    }
  }

  lemma TrimChars(s: string)
    ensures forall c :: c in Trim(s) ==> c in s
  {
    var a, b := TrimSlice(s);
    var r := Trim(s);
    forall c | c in r ensures c in s {
      var i :| 0 <= i < |r| && r[i] == c;
      assert s[a + i] == c;
    }
  }

  lemma NoTripleSlice(s: string, a: nat, b: nat)
    requires a <= b <= |s| && NoTripleNewline(s)
    ensures NoTripleNewline(s[a..b])
  {
    var r := s[a..b];
    forall i | 0 <= i < |r| - 2 ensures !(r[i] == '\n' && r[i + 1] == '\n' && r[i + 2] == '\n') {
      assert r[i] == s[a + i] && r[i + 1] == s[a + i + 1] && r[i + 2] == s[a + i + 2];
    }
  }

  lemma TrimNoTriple(s: string)
    requires NoTripleNewline(s)
    ensures NoTripleNewline(Trim(s))
  {
    var a, b := TrimSlice(s);
    NoTripleSlice(s, a, b);
  }

  /** Trimming leaves no outer whitespace, adds no character, and keeps the
      absence of triple newlines and the normality of every line. */
  lemma TrimSpec(s: string)
    ensures Trimmed(Trim(s))
    ensures forall c :: c in Trim(s) ==> c in s
    ensures NoTripleNewline(s) ==> NoTripleNewline(Trim(s))
    ensures LinesNormal(s) ==> LinesNormal(Trim(s))
  {
    var a, b := TrimSlice(s);
    TrimChars(s);
    if NoTripleNewline(s) {
      TrimNoTriple(s);
    }
    if LinesNormal(s) {
      TrimEndPreservesLines(s);
      TrimStartPreservesLines(TrimEnd(s));
    }
  }

  lemma TrimFixed(s: string)
    requires Trimmed(s)
    ensures Trim(s) == s
  {
  }

  // ---------------------------------------------------------------------
  // The whole transform
  // ---------------------------------------------------------------------

  /** The output has no carriage return, no run of three newlines, no
      leading or trailing whitespace, and each of its lines is normal; its
      non-whitespace characters are those of the input, in order. */
  lemma NormalizeTextNormalForm(text: string)
    ensures NormalForm(NormalizeText(text))
    ensures NonSpace(NormalizeText(text)) == NonSpace(text)
  {
    NormalizeTextKeepsContent(text);
    var lines := NormalizeLines(SplitLines(text));
    NormalizeLinesSpec(SplitLines(text));
    var joined := JoinLines(lines);
    forall l | l in lines ensures '\r' !in l {
    }
    JoinLinesChars(lines);
    JoinLinesNormal(lines);
    var collapsed := CollapseBlankLines(joined);
    CollapseChars(joined);
    CollapseNoTriple(joined);
    CollapsePreservesLines(joined);
    TrimSpec(collapsed);
  }

  /** On a text already in normal form, the line stage is the identity. */
  lemma {:induction false} LineStageFixed(s: string)
    requires '\r' !in s && LinesNormal(s)
    ensures JoinLines(NormalizeLines(SplitLines(s))) == s
    decreases |s|
  {
    var k := LineEnd(s);
    var p := s[..k];
    assert '\r' !in p by {
      forall c | c in p ensures c != '\r' {
        assert c in s;
      }
    }
    if k == |s| {
      assert p == s;
      SplitLinesNoBreak(s);
      NormalizeLineSpec(s);
      assert NormalizeLines([s]) == [NormalizeLine(s)];
    } else {
      var r := s[k + 1..];
      assert s == p + "\n" + r;
      assert '\r' !in r by {
        forall c | c in r ensures c != '\r' {
          assert c in s;
        }
      }
      SplitLinesFirst(p, r);
      LineStageFixed(r);
      NormalizeLineSpec(p);
      var m := NormalizeLines(SplitLines(r));
      assert NormalizeLines([p] + SplitLines(r)) == [p] + m;
      assert ([p] + m)[1..] == m;
    }
  }

  /** A text in normal form is a fixed point of the transform. */
  lemma NormalFormFixed(s: string)
    requires NormalForm(s)
    ensures NormalizeText(s) == s
  {
    LineStageFixed(s);
    CollapseFixed(s);
    TrimFixed(s);
  }

  /** The texts in normal form are exactly the fixed points. */
  lemma NormalizeTextFixedIff(s: string)
    ensures NormalizeText(s) == s <==> NormalForm(s)
  {
    if NormalForm(s) {
      NormalFormFixed(s);
    } else {
      NormalizeTextNormalForm(s);
    }
  }

  /** Normalizing twice is normalizing once. */
  lemma NormalizeTextIdempotent(text: string)
    ensures NormalizeText(NormalizeText(text)) == NormalizeText(text)
  {
    NormalizeTextNormalForm(text);
    NormalFormFixed(NormalizeText(text));
  }

  // ---------------------------------------------------------------------
  // What the transform keeps: every non-whitespace character, in order
  // ---------------------------------------------------------------------

  /** The characters of `s` that are not whitespace, in their order. */
  function NonSpace(s: string): string {
    if s == [] then [] else (if IsSpace(s[0]) then [] else [s[0]]) + NonSpace(s[1..])
  }

  lemma {:induction false} NonSpaceAppend(a: string, b: string)
    ensures NonSpace(a + b) == NonSpace(a) + NonSpace(b)
  {
    if a == [] {
      assert a + b == b;
    } else {
      assert (a + b)[1..] == a[1..] + b;
      NonSpaceAppend(a[1..], b);
    }
  }

  lemma {:induction false} NonSpaceOfBlank(s: string)
    requires forall i :: 0 <= i < |s| ==> IsSpace(s[i])
    ensures NonSpace(s) == []
  {
    if s != [] {
      NonSpaceOfBlank(s[1..]);
    }
  }

  /** Squeezing drops only spaces. */
  lemma {:induction false} SqueezeSpacesKeepsContent(s: string)
    ensures NonSpace(SqueezeSpaces(s)) == NonSpace(s)
  {
    if s != [] {
      SqueezeSpacesKeepsContent(s[1..]);
      if !(|s| >= 2 && s[0] == ' ' && s[1] == ' ') {
        var t := SqueezeSpaces(s[1..]);
        assert ([s[0]] + t)[1..] == t;
      }
    }
  }

  /** A double space squeezes as a single one: with `SqueezeSpacesFixed`,
      `SqueezeSpaces` is the normal form of rewriting two spaces to one, so
      every run of two or more spaces ends as exactly one. */
  lemma {:induction false} SqueezeSpacesStep(a: string, b: string)
    ensures SqueezeSpaces(a + "  " + b) == SqueezeSpaces(a + " " + b)
  {
    if a == [] {
      assert a + "  " + b == [' '] + (a + " " + b);
      assert (a + "  " + b)[1..] == a + " " + b;
    } else {
      var s, t := a + "  " + b, a + " " + b;
      assert s[0] == t[0] == a[0];
      assert s[1] == t[1];
      assert s[1..] == a[1..] + "  " + b;
      assert t[1..] == a[1..] + " " + b;
      SqueezeSpacesStep(a[1..], b);
    }
  }

  lemma TrimEndKeepsContent(s: string)
    ensures NonSpace(TrimEnd(s)) == NonSpace(s)
  {
    var r := TrimEnd(s);
    assert s == r + s[|r|..];
    NonSpaceAppend(r, s[|r|..]);
    NonSpaceOfBlank(s[|r|..]);
  }

  lemma TrimStartKeepsContent(s: string)
    ensures NonSpace(TrimStart(s)) == NonSpace(s)
  {
    var r := TrimStart(s);
    var k := |s| - |r|;
    assert s == s[..k] + r;
    NonSpaceAppend(s[..k], r);
    NonSpaceOfBlank(s[..k]);
  }

  lemma TrimKeepsContent(s: string)
    ensures NonSpace(Trim(s)) == NonSpace(s)
  {
    TrimEndKeepsContent(s);
    TrimStartKeepsContent(TrimEnd(s));
  }

  /** The per-line map keeps every non-whitespace character of the line. */
  lemma NormalizeLineKeepsContent(line: string)
    ensures NonSpace(NormalizeLine(line)) == NonSpace(line)
  {
    var ind := Indentation(line);
    var rest := line[|ind|..];
    assert line == ind + rest;
    NonSpaceAppend(ind, rest);
    NonSpaceAppend(ind, TrimEnd(SqueezeSpaces(rest)));
    SqueezeSpacesKeepsContent(rest);
    TrimEndKeepsContent(SqueezeSpaces(rest));
  }

  /** Collapsing drops only newlines. */
  lemma {:induction false} CollapseKeepsContent(s: string)
    ensures NonSpace(CollapseBlankLines(s)) == NonSpace(s)
  {
    if s != [] {
      CollapseKeepsContent(s[1..]);
      if !(|s| >= 3 && s[0] == '\n' && s[1] == '\n' && s[2] == '\n') {
        var t := CollapseBlankLines(s[1..]);
        assert ([s[0]] + t)[1..] == t;
      }
    }
  }

  /** Prefixing the first of the lines prefixes the joined text. */
  lemma JoinLinesPrefix(x: string, l: string, rest: seq<string>)
    ensures JoinLines([x + l] + rest) == x + JoinLines([l] + rest)
  {
    JoinLinesCons(x + l, rest);
    JoinLinesCons(l, rest);
  }

  lemma NonSpaceCons(c: char, s: string)
    ensures NonSpace([c] + s) == (if IsSpace(c) then [] else [c]) + NonSpace(s)
  {
    assert ([c] + s)[1..] == s;
  }

  /** Splitting and re-joining turns line breaks into '\n' and nothing else. */
  lemma {:induction false} SplitJoinKeepsContent(text: string)
    ensures NonSpace(JoinLines(SplitLines(text))) == NonSpace(text)
  {
    if text == [] {
    } else if text[0] == '\r' && |text| >= 2 && text[1] == '\n' {
      SplitJoinKeepsContent(text[2..]);
      JoinLinesCons([], SplitLines(text[2..]));
      assert text[1..][1..] == text[2..];
    } else if IsLineBreak(text[0]) {
      SplitJoinKeepsContent(text[1..]);
      JoinLinesCons([], SplitLines(text[1..]));
    } else {
      var tail := SplitLines(text[1..]);
      SplitJoinKeepsContent(text[1..]);
      JoinLinesPrefix([text[0]], tail[0], tail[1..]);
      assert [tail[0]] + tail[1..] == tail;
      NonSpaceCons(text[0], JoinLines(tail));
    }
  }

  lemma {:induction false} NormalizeLinesKeepContent(lines: seq<string>)
    ensures NonSpace(JoinLines(NormalizeLines(lines))) == NonSpace(JoinLines(lines))
  {
    if lines != [] {
      var rest := lines[1..];
      var m := NormalizeLines(rest);
      NormalizeLinesKeepContent(rest);
      NormalizeLineKeepsContent(lines[0]);
      assert lines == [lines[0]] + rest;
      JoinLinesCons(lines[0], rest);
      JoinLinesCons(NormalizeLine(lines[0]), m);
      if rest != [] {
        NonSpaceAppend(lines[0], "\n" + JoinLines(rest));
        NonSpaceAppend(NormalizeLine(lines[0]), "\n" + JoinLines(m));
        NonSpaceAppend("\n", JoinLines(rest));
        NonSpaceAppend("\n", JoinLines(m));
      } else {
        assert lines[0] + [] == lines[0];
        assert NormalizeLine(lines[0]) + [] == NormalizeLine(lines[0]);
      }
    }
  }

  /** The whole transform only removes or replaces whitespace: the
      non-whitespace characters of the output are those of the input, in
      the same order. */
  lemma NormalizeTextKeepsContent(text: string)
    ensures NonSpace(NormalizeText(text)) == NonSpace(text)
  {
    var lines := SplitLines(text);
    SplitJoinKeepsContent(text);
    NormalizeLinesKeepContent(lines);
    var joined := JoinLines(NormalizeLines(lines));
    CollapseKeepsContent(joined);
    TrimKeepsContent(CollapseBlankLines(joined));
  }

  // ---------------------------------------------------------------------
  // Worked examples, over arbitrary words
  // ---------------------------------------------------------------------

  /** Horizontal whitespace only: what can indent a line. */
  predicate Blank(s: string) {
    forall i :: 0 <= i < |s| ==> IsSpace(s[i]) && !IsLineBreak(s[i])
  }

  /** A non-empty run of non-whitespace characters. */
  predicate Word(w: string) {
    w != [] && forall i :: 0 <= i < |w| ==> !IsSpace(w[i])
  }

  lemma WordFacts(w: string)
    requires Word(w)
    ensures '\n' !in w && '\r' !in w && ' ' !in w
    ensures NoDoubleSpace(w) && TrimEnd(w) == w
  {
  }

  lemma {:induction false} SqueezeSkips(a: string, s: string)
    requires ' ' !in a
    ensures SqueezeSpaces(a + s) == a + SqueezeSpaces(s)
  {
    if a != [] {
      assert a[0] in a;
      assert (a + s)[1..] == a[1..] + s;
      assert ' ' !in a[1..] by {
        forall c | c in a[1..] ensures c != ' ' {
          assert c in a;
        }
      }
      SqueezeSkips(a[1..], s);
      assert [a[0]] + a[1..] == a;
    } else {
      assert a + s == s;
    }
  }

  lemma {:induction false} TrimStartSkips(ind: string, s: string)
    requires forall i :: 0 <= i < |ind| ==> IsSpace(ind[i])
    requires s == [] || !IsSpace(s[0])
    ensures TrimStart(ind + s) == s
  {
    if ind != [] {
      assert (ind + s)[1..] == ind[1..] + s;
      TrimStartSkips(ind[1..], s);
    } else {
      assert ind + s == s;
    }
  }

  lemma NoBreakConcat(a: string, b: string)
    requires '\n' !in a && '\r' !in a && '\n' !in b && '\r' !in b
    ensures '\n' !in a + b && '\r' !in a + b
  {
  }

  lemma BlankNoBreak(ind: string)
    requires Blank(ind)
    ensures '\n' !in ind && '\r' !in ind
  {
  }

  /** An indented word on its own line comes out as the word alone: the
      per-line pass keeps the indentation, the final trim removes it. */
  lemma IndentedLineExample(ind: string, w: string)
    requires Blank(ind) && Word(w)
    ensures NormalizeText(ind + w + "\n") == w
  {
    IndentedLineStage(ind, w);
    WordFacts(w);
    BlankNoBreak(ind);
    assert '\n' !in ind + w;
    CollapseSkipsLine(ind + w, "\n");
    CollapseNewline();
    TrimIndentedWord(ind, w);
  }

  lemma IndentedLineStage(ind: string, w: string)
    requires Blank(ind) && Word(w)
    ensures JoinLines(NormalizeLines(SplitLines(ind + w + "\n"))) == ind + w + "\n"
  {
    var line := ind + w;
    WordFacts(w);
    BlankNoBreak(ind);
    NoBreakConcat(ind, w);
    SplitLinesFirst(line, "");
    assert ind + w + "\n" == line + "\n" + "";
    IndentedWordLine(ind, w);
    NormalizeLinesCons("", []);
    NormalizeLinesCons(line, [""]);
    JoinLinesCons("", []);
    JoinLinesCons(line, [""]);
  }

  /** The per-line map on a line that starts with `ind` and then a
      non-whitespace character. */
  lemma NormalizeIndented(ind: string, rest: string)
    requires forall i :: 0 <= i < |ind| ==> IsSpace(ind[i])
    requires rest != [] && !IsSpace(rest[0])
    ensures NormalizeLine(ind + rest) == ind + TrimEnd(SqueezeSpaces(rest))
  {
    IndentationOfConcat(ind, rest);
    assert (ind + rest)[|ind|..] == rest;
  }

  lemma TrimEndKeeps(s: string)
    requires s != [] && !IsSpace(s[|s| - 1])
    ensures TrimEnd(s) == s
  {
  }

  lemma TrimEndDropsNewline(s: string)
    requires s != [] && !IsSpace(s[|s| - 1])
    ensures TrimEnd(s + "\n") == s
  {
    assert (s + "\n")[..|s|] == s;
  }

  lemma IndentedWordLine(ind: string, w: string)
    requires Blank(ind) && Word(w)
    ensures NormalizeLine(ind + w) == ind + w
  {
    NormalizeIndented(ind, w);
    WordFacts(w);
    SqueezeSpacesFixed(w);
  }

  lemma CollapseNewline()
    ensures CollapseBlankLines("\n") == "\n"
  {
    assert "\n"[1..] == [];
  }

  lemma TrimIndentedWord(ind: string, w: string)
    requires Blank(ind) && Word(w)
    ensures Trim(ind + w + "\n") == w
  {
    var line := ind + w;
    assert line[|line| - 1] == w[|w| - 1];
    TrimEndDropsNewline(line);
    TrimStartSkips(ind, w);
  }

  lemma SplitEmptyFirst(r: string)
    ensures SplitLines("\n" + r) == [[]] + SplitLines(r)
  {
    SplitLinesFirst([], r);
    assert [] + "\n" + r == "\n" + r;
  }

  lemma SplitBlankRun(l5: string)
    requires '\n' !in l5 && '\r' !in l5
    ensures SplitLines("\n\n\n" + l5) == [[], [], [], l5]
  {
    SplitLinesNoBreak(l5);
    SplitEmptyFirst(l5);
    SplitEmptyFirst("\n" + l5);
    assert "\n" + ("\n" + l5) == "\n\n" + l5;
    SplitEmptyFirst("\n\n" + l5);
    assert "\n" + ("\n\n" + l5) == "\n\n\n" + l5;
  }

  /** The splitting of the text of `SpacesAndBlankLinesExample`. */
  lemma SplitFiveLines(l1: string, l5: string)
    requires '\n' !in l1 && '\r' !in l1 && '\n' !in l5 && '\r' !in l5
    ensures SplitLines(l1 + "\n\n\n\n" + l5) == [l1, [], [], [], l5]
  {
    SplitBlankRun(l5);
    SplitLinesFirst(l1, "\n\n\n" + l5);
    assert l1 + "\n" + ("\n\n\n" + l5) == l1 + "\n\n\n\n" + l5;
  }

  lemma NormalizeLinesCons(l: string, ls: seq<string>)
    ensures NormalizeLines([l] + ls) == [NormalizeLine(l)] + NormalizeLines(ls)
  {
    assert ([l] + ls)[1..] == ls;
  }

  lemma {:induction false} NormalizeLinesAt(ls: seq<string>, i: nat)
    requires i < |ls|
    ensures NormalizeLines(ls)[i] == NormalizeLine(ls[i])
  {
    if i > 0 {
      NormalizeLinesAt(ls[1..], i - 1);
    }
  }

  lemma NormalizeFiveLines(l1: string, l5: string)
    ensures NormalizeLines([l1, [], [], [], l5]) ==
      [NormalizeLine(l1), [], [], [], NormalizeLine(l5)]
  {
    var ls := [l1, [], [], [], l5];
    assert NormalizeLine([]) == [];
    forall i | 0 <= i < 5 ensures NormalizeLines(ls)[i] == NormalizeLine(ls[i]) {
      NormalizeLinesAt(ls, i);
    }
  }

  lemma JoinFiveLines(l1: string, l5: string)
    ensures JoinLines([l1, [], [], [], l5]) == l1 + "\n\n\n\n" + l5
  {
    JoinLinesCons(l5, []);
    JoinLinesCons([], [l5]);
    assert JoinLines([[], l5]) == "\n" + l5;
    JoinLinesCons([], [[], l5]);
    assert JoinLines([[], [], l5]) == "\n\n" + l5;
    JoinLinesCons([], [[], [], l5]);
    assert JoinLines([[], [], [], l5]) == "\n\n\n" + l5;
    JoinLinesCons(l1, [[], [], [], l5]);
    assert l1 + ("\n" + ("\n\n\n" + l5)) == l1 + "\n\n\n\n" + l5;
  }

  lemma SqueezeDoubleSpace(b: string)
    requires Word(b)
    ensures SqueezeSpaces("  " + b) == " " + b
  {
    assert ("  " + b)[1..] == " " + b;
    assert (" " + b)[1..] == b;
    WordFacts(b);
    SqueezeSpacesFixed(b);
  }

  lemma SqueezeWords(a: string, b: string)
    requires Word(a) && Word(b)
    ensures SqueezeSpaces(a + "  " + b) == a + " " + b
  {
    WordFacts(a);
    assert a + "  " + b == a + ("  " + b);
    SqueezeSkips(a, "  " + b);
    SqueezeDoubleSpace(b);
    assert a + (" " + b) == a + " " + b;
  }

  /** `a  b` indented by `ind` becomes `ind` + `a b`. */
  lemma FirstLineExample(ind: string, a: string, b: string)
    requires Blank(ind) && Word(a) && Word(b)
    ensures NormalizeLine(ind + a + "  " + b) == ind + (a + " " + b)
  {
    var rest := a + "  " + b;
    assert ind + a + "  " + b == ind + rest;
    assert rest[0] == a[0];
    NormalizeIndented(ind, rest);
    SqueezeWords(a, b);
    var sq := a + " " + b;
    assert sq[|sq| - 1] == b[|b| - 1];
    TrimEndKeeps(sq);
  }

  /** `c` followed by two spaces becomes `c`. */
  lemma LastLineExample(c: string)
    requires Word(c)
    ensures NormalizeLine(c + "  ") == c
  {
    WordFacts(c);
    IndentationOfConcat([], c + "  ");
    assert [] + (c + "  ") == c + "  ";
    SqueezeSkips(c, "  ");
    assert SqueezeSpaces("  ") == " ";
    assert TrimEnd(c + " ") == c by {
      assert (c + " ")[..|c|] == c;
    }
  }

  lemma CollapseDrop(s: string)
    requires |s| >= 3 && s[0] == '\n' && s[1] == '\n' && s[2] == '\n'
    ensures CollapseBlankLines(s) == CollapseBlankLines(s[1..])
  {
  }

  lemma CollapseKeep(s: string)
    requires s != [] && !(|s| >= 3 && s[0] == '\n' && s[1] == '\n' && s[2] == '\n')
    ensures CollapseBlankLines(s) == [s[0]] + CollapseBlankLines(s[1..])
  {
  }

  lemma CollapseDropTwo(c: string)
    ensures CollapseBlankLines("\n\n\n\n" + c) == CollapseBlankLines("\n\n" + c)
  {
    var s4 := "\n\n\n\n" + c;
    var s3 := "\n\n\n" + c;
    assert s4[1..] == s3 && s3[1..] == "\n\n" + c;
    CollapseDrop(s4);
    CollapseDrop(s3);
  }

  lemma CollapseKeepTwo(c: string)
    requires c != [] && c[0] != '\n'
    ensures CollapseBlankLines("\n\n" + c) == "\n\n" + CollapseBlankLines(c)
  {
    var s2 := "\n\n" + c;
    var s1 := "\n" + c;
    assert s2[1..] == s1 && s1[1..] == c;
    CollapseKeep(s2);
    CollapseKeep(s1);
    assert [s2[0]] + ([s1[0]] + CollapseBlankLines(c)) == "\n\n" + CollapseBlankLines(c);
  }

  lemma CollapseBeforeWord(c: string)
    requires '\n' !in c && c != []
    ensures CollapseBlankLines("\n\n\n\n" + c) == "\n\n" + c
  {
    assert c[0] in c;
    CollapseDropTwo(c);
    CollapseKeepTwo(c);
    assert NoTripleNewline(c);
    CollapseFixed(c);
  }

  lemma CollapseFourBreaks(l1: string, c: string)
    requires '\n' !in l1 && '\n' !in c && c != []
    ensures CollapseBlankLines(l1 + "\n\n\n\n" + c) == l1 + "\n\n" + c
  {
    assert l1 + "\n\n\n\n" + c == l1 + ("\n\n\n\n" + c);
    CollapseSkipsLine(l1, "\n\n\n\n" + c);
    CollapseBeforeWord(c);
    assert l1 + ("\n\n" + c) == l1 + "\n\n" + c;
  }

  /** The line stage on the text of `SpacesAndBlankLinesExample`. */
  lemma FiveLineStage(ind: string, a: string, b: string, c: string)
    requires Blank(ind) && Word(a) && Word(b) && Word(c)
    ensures JoinLines(NormalizeLines(SplitLines(ind + a + "  " + b + "\n\n\n\n" + c + "  ")))
      == ind + (a + " " + b) + "\n\n\n\n" + c
  {
    WordFacts(a);
    WordFacts(b);
    WordFacts(c);
    BlankNoBreak(ind);
    var l1 := ind + a + "  " + b;
    var l5 := c + "  ";
    assert '\n' !in l1 && '\r' !in l1;
    assert '\n' !in l5 && '\r' !in l5;
    assert ind + a + "  " + b + "\n\n\n\n" + c + "  " == l1 + "\n\n\n\n" + l5;
    SplitFiveLines(l1, l5);
    NormalizeFiveLines(l1, l5);
    FirstLineExample(ind, a, b);
    LastLineExample(c);
    JoinFiveLines(ind + (a + " " + b), c);
  }

  lemma TrimFirstIndent(ind: string, body: string)
    requires Blank(ind) && body != [] && !IsSpace(body[0]) && !IsSpace(body[|body| - 1])
    ensures Trim(ind + body) == body
  {
    var out := ind + body;
    assert out[|out| - 1] == body[|body| - 1];
    assert TrimEnd(out) == out;
    TrimStartSkips(ind, body);
  }

  /** The collapse and the trim on the output of `FiveLineStage`. */
  lemma CollapseAndTrim(ind: string, first: string, c: string)
    requires Blank(ind) && first != [] && !IsSpace(first[0]) && '\n' !in first && Word(c)
    ensures Trim(CollapseBlankLines(ind + first + "\n\n\n\n" + c)) == first + "\n\n" + c
  {
    WordFacts(c);
    BlankNoBreak(ind);
    assert '\n' !in ind + first;
    CollapseFourBreaks(ind + first, c);
    var body := first + "\n\n" + c;
    assert ind + first + "\n\n" + c == ind + body;
    assert body[0] == first[0] && body[|body| - 1] == c[|c| - 1];
    TrimFirstIndent(ind, body);
  }

  /** Indentation of the first line and trailing spaces go, a double space
      inside a line becomes one, and three blank lines become one. */
  lemma SpacesAndBlankLinesExample(ind: string, a: string, b: string, c: string)
    requires Blank(ind) && Word(a) && Word(b) && Word(c)
    ensures NormalizeText(ind + a + "  " + b + "\n\n\n\n" + c + "  ") == a + " " + b + "\n\n" + c
  {
    FiveLineStage(ind, a, b, c);
    WordFacts(a);
    WordFacts(b);
    var first := a + " " + b;
    assert first[0] == a[0] && '\n' !in first;
    CollapseAndTrim(ind, first, c);
  }

  lemma ExampleArguments()
    ensures Blank("  ") && Blank("    ") && Word("x") && Word("y") && Word("z")
    ensures "  " + "x" + "  " + "y" + "\n\n\n\n" + "z" + "  " == "  x  y\n\n\n\nz  "
    ensures "x" + " " + "y" + "\n\n" + "z" == "x y\n\nz"
    ensures "    " + "x" + "\n" == "    x\n"
  {
  }

  /** The two texts above as literal strings. */
  lemma LiteralExamples()
    ensures NormalizeText("  x  y\n\n\n\nz  ") == "x y\n\nz"
    ensures NormalizeText("    x\n") == "x"
  {
    ExampleArguments();
    SpacesAndBlankLinesExample("  ", "x", "y", "z");
    IndentedLineExample("    ", "x");
  }
}
