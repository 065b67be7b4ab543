/**
 * `parse_frontmatter` of build-router.py: find the header block with the
 * regular expression `^---\s*\n(.*?)\n---` (DOTALL), then split its body
 * into lines and record every `key: value` line, the later of two lines
 * with the same key winning.
 */
module Frontmatter {
  import opened Options
  import opened Text
  import opened Sorting

  /** A `\n---` starts at index `j` of `c`. */
  predicate IsClosing(c: string, j: int)
  {
    0 <= j && j + 4 <= |c| && c[j..j + 4] == "\n---"
  }

  /**
   * `c` starts with `---`, then whitespace, and index `e` holds the `\n`
   * that ends the `\s*\n` part of the pattern.
   */
  predicate IsOpening(c: string, e: int)
  {
    3 <= e < |c| && c[..3] == "---" && AllSpace(c[3..e]) && c[e] == '\n'
  }

  /** The pattern can match at all: some opening followed later by a closing. */
  ghost predicate HasHeader(c: string)
  {
    exists e, j :: IsOpening(c, e) && e < j && IsClosing(c, j)
  }

  /** `b` is the shortest body after the opening `e`, ended by a closing. */
  ghost predicate BodyAt(c: string, e: int, b: string)
  {
    && IsOpening(c, e)
    && IsClosing(c, e + 1 + |b|)
    && c[e + 1..e + 1 + |b|] == b
    && forall j :: e < j < e + 1 + |b| ==> !IsClosing(c, j)
  }

  /** No opening after `e` is followed by a closing. */
  ghost predicate NoLaterHeader(c: string, e: int)
  {
    forall e', j :: e < e' && IsOpening(c, e') && e' < j ==> !IsClosing(c, j)
  }

  /** The first closing at or after index `i`: the lazy `(.*?)\n---`. */
  function FindClose(c: string, i: nat): (r: Option<nat>)
    ensures r.Some? ==> i <= r.value && IsClosing(c, r.value)
    ensures r.Some? ==> forall j :: i <= j < r.value ==> !IsClosing(c, j)
    ensures r.None? ==> forall j :: i <= j ==> !IsClosing(c, j)
    decreases |c| - i
  {
    if i + 4 > |c| then None
    else if c[i..i + 4] == "\n---" then Some(i)
    else FindClose(c, i + 1)
  }

  /** The end of the longest whitespace run starting at `i`: the greedy `\s*`. */
  function SpaceEnd(c: string, i: nat): (e: nat)
    requires i <= |c|
    ensures i <= e <= |c|
    ensures AllSpace(c[i..e])
    ensures e < |c| ==> !IsSpace(c[e])
    decreases |c| - i
  {
    if i < |c| && IsSpace(c[i]) then
      var e := SpaceEnd(c, i + 1);
      assert c[i..e] == [c[i]] + c[i + 1..e];
      e
    else i
  }

  /**
   * The backtracking of `\s*`: try the `\n` at `e`, then give back one
   * whitespace character at a time down to the end of `---`.
   */
  function MatchFrom(c: string, e: nat): (r: Option<string>)
    requires 3 <= e <= |c|
    decreases e
  {
    var close := if e < |c| && c[e] == '\n' then FindClose(c, e + 1) else None;
    if close.Some? then Some(c[e + 1..close.value])
    else if e == 3 then None
    else MatchFrom(c, e - 1)
  }

  /** `re.match(r"^---\s*\n(.*?)\n---", c, re.DOTALL)`, giving group 1. */
  function MatchHeader(c: string): (r: Option<string>)
  {
    if |c| >= 3 && c[..3] == "---" then MatchFrom(c, SpaceEnd(c, 3)) else None
  }

  /** No opening at or before `e` is followed by a closing. */
  ghost predicate NoHeaderUpTo(c: string, e: int)
  {
    forall e', j :: e' <= e && IsOpening(c, e') && e' < j ==> !IsClosing(c, j)
  }

  /** `b` is the body after an opening at or before `e`, and no later opening up to `e` has a closing. */
  ghost predicate LastHeaderUpTo(c: string, e: int, b: string)
  {
    exists e' :: e' <= e && BodyAt(c, e', b) &&
      forall e'', j :: e' < e'' <= e && IsOpening(c, e'') && e'' < j ==> !IsClosing(c, j)
  }

  /** No closing follows an opening at `e`. */
  ghost predicate NoHeaderAt(c: string, e: int)
  {
    forall j :: e < j ==> !(IsOpening(c, e) && IsClosing(c, j))
  }

  lemma {:induction false} MatchFromSpec(c: string, e: nat)
    requires 3 <= e <= |c| && c[..3] == "---" && AllSpace(c[3..e])
    ensures MatchFrom(c, e).None? <==> NoHeaderUpTo(c, e)
    ensures MatchFrom(c, e).Some? ==> LastHeaderUpTo(c, e, MatchFrom(c, e).value)
    decreases e
  {
    if e < |c| && c[e] == '\n' && FindClose(c, e + 1).Some? {
      MatchFromHit(c, e);
    } else {
      MatchFromMiss(c, e);
      if e > 3 {
        assert c[3..e - 1] == c[3..e][..e - 4];
        MatchFromSpec(c, e - 1);
        if MatchFrom(c, e).Some? {
          NoHeaderStep(c, e, MatchFrom(c, e).value);
        } else {
          NoHeaderStep(c, e, []);
        }
      } else {
        NoHeaderFirst(c);
      }
    }
  }

  /** The `\n` at `e` opens the header and a closing follows it. */
  lemma MatchFromHit(c: string, e: nat)
    requires 3 <= e < |c| && c[..3] == "---" && AllSpace(c[3..e])
    requires c[e] == '\n' && FindClose(c, e + 1).Some?
    ensures MatchFrom(c, e) == Some(c[e + 1..FindClose(c, e + 1).value])
    ensures !NoHeaderUpTo(c, e) && LastHeaderUpTo(c, e, MatchFrom(c, e).value)
  {
    var b := c[e + 1..FindClose(c, e + 1).value];
    assert IsOpening(c, e);
    assert BodyAt(c, e, b);
  }

  /** No header opens at `e`, and matching falls back to `e - 1`. */
  lemma MatchFromMiss(c: string, e: nat)
    requires 3 <= e <= |c|
    requires !(e < |c| && c[e] == '\n' && FindClose(c, e + 1).Some?)
    ensures NoHeaderAt(c, e)
    ensures MatchFrom(c, e) == if e == 3 then None else MatchFrom(c, e - 1)
  {
  }

  lemma NoHeaderStep(c: string, e: int, b: string)
    requires NoHeaderAt(c, e)
    ensures NoHeaderUpTo(c, e) <==> NoHeaderUpTo(c, e - 1)
    ensures LastHeaderUpTo(c, e - 1, b) ==> LastHeaderUpTo(c, e, b)
  {
    if LastHeaderUpTo(c, e - 1, b) {
      var e' :| e' <= e - 1 && BodyAt(c, e', b) &&
        forall e'', j :: e' < e'' <= e - 1 && IsOpening(c, e'') && e'' < j ==> !IsClosing(c, j);
      assert forall e'', j :: e' < e'' <= e && IsOpening(c, e'') && e'' < j ==> !IsClosing(c, j);
    }
  }

  lemma NoHeaderFirst(c: string)
    requires NoHeaderAt(c, 3)
    ensures NoHeaderUpTo(c, 3)
  {
  }

  /**
   * The regular expression, stated without backtracking: it fails exactly
   * when no opening is followed by a closing, and otherwise yields the
   * shortest body after the LAST opening that has a closing after it.
   */
  lemma MatchHeaderSpec(c: string)
    ensures MatchHeader(c).None? <==> !HasHeader(c)
    ensures MatchHeader(c).Some? ==>
              exists e :: BodyAt(c, e, MatchHeader(c).value) && NoLaterHeader(c, e)
  {
    if |c| >= 3 && c[..3] == "---" {
      var s := SpaceEnd(c, 3);
      MatchFromSpec(c, s);
      forall e' | IsOpening(c, e')
        ensures e' < s
      {
        assert c[3..e' + 1] == c[3..e'] + [c[e']];
        SpaceEndCovers(c, 3, e' + 1);
      }
    }
  }

  lemma {:induction false} SpaceEndCovers(c: string, i: nat, k: nat)
    requires i <= k <= |c| && AllSpace(c[i..k])
    ensures k <= SpaceEnd(c, i)
    decreases k - i
  {
    if i < k {
      assert IsSpace(c[i]);
      assert c[i + 1..k] == c[i..k][1..];
      SpaceEndCovers(c, i + 1, k);
    }
  }

  /** No `\n---` occurs inside `b`. */
  predicate NoCloserInside(b: string)
  {
    forall j :: 0 <= j < |b| ==> !IsClosing(b, j)
  }

  /**
   * The usual header: `---`, a newline, a body that does not start with
   * whitespace and holds no `\n---`, then `\n---`: the body is found.
   */
  lemma CommonHeader(c: string, b: string, rest: string)
    requires c == "---\n" + b + "\n---" + rest
    requires b != [] && !IsSpace(b[0]) && NoCloserInside(b)
    ensures MatchHeader(c) == Some(b)
  {
    assert c[..3] == "---" && c[3] == '\n' && c[4] == b[0];
    assert c[3..4] == "\n";
    assert SpaceEnd(c, 4) == 4;
    assert SpaceEnd(c, 3) == 4;
    var n := 4 + |b|;
    assert c[n..n + 4] == "\n---";
    assert IsClosing(c, n);
    forall j | 4 <= j < n
      ensures !IsClosing(c, j)
    {
      if j + 4 <= n {
        assert c[j..j + 4] == b[j - 4..j];
        assert !IsClosing(b, j - 4);
      } else if j + 4 <= |c| {
        assert c[j..j + 4][n - j] == c[n] == '\n';
      }
    }
    var close := FindClose(c, 4);
    assert close == Some(n);
    assert c[4..n] == b;
  }

  /** `line.partition(":")` for a line that holds a colon. */
  function Partition(line: string): (parts: (string, string))
    requires ':' in line
    ensures line == parts.0 + ":" + parts.1
    ensures ':' !in parts.0
  {
    var i := IndexOf(line, ':');
    assert line == line[..i] + ":" + line[i + 1..];
    (line[..i], line[i + 1..])
  }

  function KeyOf(line: string): string
    requires ':' in line
  {
    Strip(Partition(line).0)
  }

  function ValueOf(line: string): string
    requires ':' in line
  {
    Strip(Partition(line).1)
  }

  /** The line sets key `k`. */
  predicate Defines(line: string, k: string)
  {
    ':' in line && KeyOf(line) == k
  }

  /** The dictionary the loop over the body lines builds. */
  function Collect(lines: seq<string>): map<string, string>
  {
    if lines == [] then map[]
    else
      var m := Collect(lines[..|lines| - 1]);
      var line := lines[|lines| - 1];
      if ':' in line then m[KeyOf(line) := ValueOf(line)] else m
  }

  /** What `parse_frontmatter` returns for `content`. */
  function Frontmatter(content: string): map<string, string>
  {
    match MatchHeader(content)
    case None => map[]
    case Some(body) => Collect(SplitLines(body))
  }

  /** `parse_frontmatter`. */
  method ParseFrontmatter(content: string) returns (fm: map<string, string>)
    ensures fm == Frontmatter(content)
  {
    var header := MatchHeader(content);
    if header.None? {
      return map[];
    }
    var lines := SplitLines(header.value);
    fm := map[];
    for i := 0 to |lines|
      invariant fm == Collect(lines[..i])
    {
      var line := lines[i];
      CollectStep(lines, i);
      if ':' in line {
        var parts := Partition(line);
        fm := fm[Strip(parts.0) := Strip(parts.1)];
      }
    }
    assert lines[..|lines|] == lines;
  }

  lemma CollectStep(lines: seq<string>, i: nat)
    requires i < |lines|
    ensures Collect(lines[..i + 1]) ==
              if ':' in lines[i] then Collect(lines[..i])[KeyOf(lines[i]) := ValueOf(lines[i])]
              else Collect(lines[..i])
  {
    assert lines[..i + 1][..i] == lines[..i];
  }

  /** A key is present exactly when some line sets it. */
  lemma {:induction false} CollectKey(lines: seq<string>, k: string)
    ensures k in Collect(lines) <==> exists i :: 0 <= i < |lines| && Defines(lines[i], k)
    decreases |lines|
  {
    if lines != [] {
      var n := |lines| - 1;
      var init := lines[..n];
      CollectKey(init, k);
      CollectAt(lines, n, k);
      ExistsSnoc(line => Defines(line, k), lines, init);
      assert lines[..n + 1] == lines;
    }
  }

  /** How the line at `n` changes the entry for `k`. */
  lemma CollectAt(lines: seq<string>, n: nat, k: string)
    requires n < |lines|
    ensures Defines(lines[n], k) ==>
              k in Collect(lines[..n + 1]) && Collect(lines[..n + 1])[k] == ValueOf(lines[n])
    ensures !Defines(lines[n], k) ==>
              (k in Collect(lines[..n + 1]) <==> k in Collect(lines[..n])) &&
              (k in Collect(lines[..n]) ==> Collect(lines[..n + 1])[k] == Collect(lines[..n])[k])
  {
    CollectStep(lines, n);
  }

  /** The value of a key comes from the last line that sets it. */
  lemma {:induction false} CollectLastWins(lines: seq<string>, k: string, i: nat)
    requires i < |lines| && Defines(lines[i], k)
    requires forall j :: i < j < |lines| ==> !Defines(lines[j], k)
    ensures k in Collect(lines) && Collect(lines)[k] == ValueOf(lines[i])
    decreases |lines|
  {
    var n := |lines| - 1;
    var init := lines[..n];
    CollectAt(lines, n, k);
    assert lines[..n + 1] == lines;
    if i < n {
      forall j | i < j < |init|
        ensures !Defines(init[j], k)
      {
        assert init[j] == lines[j];
      }
      assert init[i] == lines[i];
      CollectLastWins(init, k, i);
    }
  }

  /** Keys and values are stripped, keys hold no colon, and neither holds a line break. */
  lemma {:induction false} CollectShape(lines: seq<string>)
    requires forall n :: 0 <= n < |lines| ==> NoLineBreak(lines[n])
    ensures forall k :: k in Collect(lines) ==>
              Trimmed(k) && ':' !in k && NoLineBreak(k) && Trimmed(Collect(lines)[k]) && NoLineBreak(Collect(lines)[k])
    decreases |lines|
  {
    if lines != [] {
      var n := |lines| - 1;
      var init := lines[..n];
      assert forall j :: 0 <= j < n ==> init[j] == lines[j];
      CollectShape(init);
      CollectStep(lines, n);
      assert lines[..n + 1] == lines;
      if ':' in lines[n] {
        EntryShape(lines[n]);
      }
    }
  }

  /** The key and value a line with a colon sets are stripped and free of line breaks. */
  lemma EntryShape(line: string)
    requires NoLineBreak(line) && ':' in line
    ensures Trimmed(KeyOf(line)) && ':' !in KeyOf(line) && NoLineBreak(KeyOf(line))
    ensures Trimmed(ValueOf(line)) && NoLineBreak(ValueOf(line))
  {
    var (key, value) := Partition(line);
    assert key == line[..|key|];
    assert value == line[|key| + 1..];
    StripKeepsNoLineBreak(key);
    StripKeepsNoLineBreak(value);
    StripKeepsOut(key, ':');
  }

  lemma StripKeepsNoLineBreak(s: string)
    requires NoLineBreak(s)
    ensures NoLineBreak(Strip(s))
  {
    var l := StripLeft(s);
    StripLeftSpec(s);
    var r := StripRight(l);
    StripRightSpec(l);
  }

  lemma StripKeepsOut(s: string, c: char)
    requires c !in s
    ensures c !in Strip(s)
  {
    var l := StripLeft(s);
    StripLeftSpec(s);
    assert c !in l;
    var r := StripRight(l);
    StripRightSpec(l);
  }

  /** The header without a match yields no keys at all. */
  lemma FrontmatterWithoutHeader(content: string)
    requires !HasHeader(content)
    ensures Frontmatter(content) == map[]
  {
    MatchHeaderSpec(content);
  }

  /** Every parsed key and value is stripped and free of line breaks; no key holds a colon. */
  lemma FrontmatterShape(content: string)
    ensures forall k :: k in Frontmatter(content) ==>
              Trimmed(k) && ':' !in k && NoLineBreak(k) &&
              Trimmed(Frontmatter(content)[k]) && NoLineBreak(Frontmatter(content)[k])
  {
    if MatchHeader(content).Some? {
      CollectShape(SplitLines(MatchHeader(content).value));
    }
  }

  // ---------------------------------------------------------------------
  // The writer's side: a header written as `key: value` lines reads back
  // as the fields that were written.

  /** `s` starts with `---`, so a line `s` after a `\n` would close the header. */
  predicate StartsWithDashes(s: string)
  {
    |s| >= 3 && s[..3] == "---"
  }

  /** A key a header line can carry and `parse_frontmatter` gives back unchanged. */
  predicate PlainKey(k: string)
  {
    Trimmed(k) && ':' !in k && NoLineBreak(k) && !StartsWithDashes(k)
  }

  predicate PlainValue(v: string)
  {
    Trimmed(v) && NoLineBreak(v)
  }

  function FieldLine(field: (string, string)): string
  {
    field.0 + ": " + field.1
  }

  /** The header block of a file that sets `fields` in order, followed by `rest`. */
  function RenderHeader(fields: seq<(string, string)>, rest: string): string
  {
    "---\n" + Join(MapSeq(FieldLine, fields), "\n") + "\n---" + rest
  }

  /** The dictionary that setting `fields` in order gives. */
  function FieldsMap(fields: seq<(string, string)>): map<string, string>
  {
    if fields == [] then map[]
    else FieldsMap(fields[..|fields| - 1])[fields[|fields| - 1].0 := fields[|fields| - 1].1]
  }

  /** Parsing a written header gives back the fields written. */
  lemma FrontmatterRoundTrip(fields: seq<(string, string)>, rest: string)
    requires fields != []
    requires forall n :: 0 <= n < |fields| ==> PlainKey(fields[n].0) && PlainValue(fields[n].1)
    ensures Frontmatter(RenderHeader(fields, rest)) == FieldsMap(fields)
  {
    var lines := MapSeq(FieldLine, fields);
    RenderedLines(fields);
    RenderedHeaderMatches(fields, rest);
    SplitLinesJoin(lines);
    CollectFields(fields);
  }

  lemma RenderedLines(fields: seq<(string, string)>)
    requires forall n :: 0 <= n < |fields| ==> PlainKey(fields[n].0) && PlainValue(fields[n].1)
    ensures forall n :: 0 <= n < |fields| ==> NoLineBreak(MapSeq(FieldLine, fields)[n])
    ensures forall n :: 0 <= n < |fields| ==> MapSeq(FieldLine, fields)[n] != []
    ensures forall n :: 0 <= n < |fields| ==> !StartsWithDashes(MapSeq(FieldLine, fields)[n])
  {
    forall n | 0 <= n < |fields|
      ensures NoLineBreak(MapSeq(FieldLine, fields)[n])
      ensures MapSeq(FieldLine, fields)[n] != [] && !StartsWithDashes(MapSeq(FieldLine, fields)[n])
    {
      FieldLineShape(fields[n]);
    }
  }

  lemma RenderedHeaderMatches(fields: seq<(string, string)>, rest: string)
    requires fields != []
    requires forall n :: 0 <= n < |fields| ==> PlainKey(fields[n].0) && PlainValue(fields[n].1)
    ensures MatchHeader(RenderHeader(fields, rest)) == Some(Join(MapSeq(FieldLine, fields), "\n"))
  {
    var lines := MapSeq(FieldLine, fields);
    var b := Join(lines, "\n");
    RenderedLines(fields);
    JoinedBody(lines);
    FirstLineNotSpace(fields);
    CommonHeader(RenderHeader(fields, rest), b, rest);
  }

  lemma FirstLineNotSpace(fields: seq<(string, string)>)
    requires fields != [] && PlainKey(fields[0].0) && PlainValue(fields[0].1)
    ensures Join(MapSeq(FieldLine, fields), "\n") != []
    ensures !IsSpace(Join(MapSeq(FieldLine, fields), "\n")[0])
  {
    var lines := MapSeq(FieldLine, fields);
    FieldLineStart(fields[0]);
    JoinFirst(lines);
  }

  lemma FieldLineStart(field: (string, string))
    requires PlainKey(field.0)
    ensures FieldLine(field) != [] && !IsSpace(FieldLine(field)[0])
  {
    var line := FieldLine(field);
    if field.0 != [] {
      assert line[0] == field.0[0];
    } else {
      assert line[0] == ':';
    }
  }

  lemma FieldLineShape(field: (string, string))
    requires PlainKey(field.0) && PlainValue(field.1)
    ensures NoLineBreak(FieldLine(field)) && FieldLine(field) != []
    ensures field.0 != [] ==> FieldLine(field)[0] == field.0[0]
    ensures field.0 == [] ==> FieldLine(field)[0] == ':'
    ensures !StartsWithDashes(FieldLine(field))
    ensures ':' in FieldLine(field)
    ensures KeyOf(FieldLine(field)) == field.0 && ValueOf(FieldLine(field)) == field.1
  {
    var (k, v) := field;
    var line := k + ": " + v;
    forall i | 0 <= i < |line|
      ensures !IsLineBreak(line[i])
    {
      if i < |k| {
        assert line[i] == k[i];
      } else if i >= |k| + 2 {
        assert line[i] == v[i - |k| - 2];
      }
    }
    if k != [] {
      assert line[0] == k[0];
    }
    if |k| >= 3 {
      assert line[..3] == k[..3];
    } else if |line| >= 3 {
      assert line[..3][|k|] == ':';
    }
    FieldLineParts(k, v);
  }

  lemma FieldLineParts(k: string, v: string)
    requires PlainKey(k) && PlainValue(v)
    ensures ':' in k + ": " + v
    ensures KeyOf(k + ": " + v) == k && ValueOf(k + ": " + v) == v
  {
    var line := k + ": " + v;
    assert line == k + (": " + v);
    IndexOfConcat(k, ": " + v, ':');
    assert line[..|k|] == k;
    assert line[|k| + 1..] == " " + v;
    StripUnpadded(k);
    StripOneSpace(v);
  }

  lemma StripUnpadded(t: string)
    requires Trimmed(t)
    ensures Strip(t) == t
  {
    StripPadded([], t, []);
    assert [] + t + [] == t;
  }

  lemma StripOneSpace(t: string)
    requires Trimmed(t)
    ensures Strip(" " + t) == t
  {
    StripPadded(" ", t, []);
    assert " " + t + [] == " " + t;
  }

  lemma {:induction false} JoinFirst(lines: seq<string>)
    requires lines != [] && lines[0] != []
    ensures Join(lines, "\n") != [] && Join(lines, "\n")[0] == lines[0][0]
  {
  }

  /** Lines none of which starts with `---`, joined, hold no `\n---`. */
  lemma {:induction false} JoinedBody(lines: seq<string>)
    requires lines != []
    requires forall n :: 0 <= n < |lines| ==> NoLineBreak(lines[n]) && !StartsWithDashes(lines[n])
    ensures NoCloserInside(Join(lines, "\n")) && !StartsWithDashes(Join(lines, "\n"))
    decreases |lines|
  {
    var b := Join(lines, "\n");
    var head := lines[0];
    if |lines| == 1 {
      forall j | 0 <= j && j + 4 <= |b|
        ensures !IsClosing(b, j)
      {
        assert b[j..j + 4][0] == head[j];
      }
    } else {
      var tail := Join(lines[1..], "\n");
      JoinedBody(lines[1..]);
      assert b == head + "\n" + tail;
      forall j | 0 <= j && j + 4 <= |b|
        ensures !IsClosing(b, j)
      {
        if j < |head| {
          assert b[j..j + 4][0] == head[j];
        } else if j == |head| {
          assert b[j..j + 4][1..] == tail[..3];
        } else {
          assert b[j..j + 4] == tail[j - |head| - 1..j - |head| + 3];
          assert !IsClosing(tail, j - |head| - 1);
        }
      }
      if |head| >= 3 {
        assert b[..3] == head[..3];
      } else if |b| >= 3 {
        assert b[..3][|head|] == '\n';
      }
    }
  }

  lemma {:induction false} SplitLinesJoin(lines: seq<string>)
    requires lines != []
    requires forall n :: 0 <= n < |lines| ==> NoLineBreak(lines[n]) && lines[n] != []
    ensures SplitLines(Join(lines, "\n")) == lines
    decreases |lines|
  {
    if |lines| == 1 {
      SplitLinesSingle(lines[0]);
    } else {
      SplitLinesJoin(lines[1..]);
      SplitLinesCons(lines[0], Join(lines[1..], "\n"));
      assert lines == [lines[0]] + lines[1..];
    }
  }

  lemma {:induction false} CollectFields(fields: seq<(string, string)>)
    requires forall n :: 0 <= n < |fields| ==> PlainKey(fields[n].0) && PlainValue(fields[n].1)
    ensures Collect(MapSeq(FieldLine, fields)) == FieldsMap(fields)
    decreases |fields|
  {
    if fields != [] {
      var init := fields[..|fields| - 1];
      var lines := MapSeq(FieldLine, fields);
      assert lines[..|lines| - 1] == MapSeq(FieldLine, init);
      CollectFields(init);
      FieldLineShape(fields[|fields| - 1]);
    }
  }

}
