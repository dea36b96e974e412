/**
 * The parts of Go's standard library the bot relies on to take text apart:
 * `strings.Index`, `strings.Split`, `strings.Join` and the line splitting of
 * `bufio.Scanner` (`bufio.ScanLines`). Each is stated as a function on `string`
 * with the properties the bot's parsers depend on.
 */
module GoStrings {
  import opened Wrappers

  /** `sep` occurs in `s` starting at position `k`. */
  predicate OccursAt(s: string, sep: string, k: nat) {
    k + |sep| <= |s| && s[k..k + |sep|] == sep
  }

  /** `strings.Index`: the position of the leftmost occurrence of `sep` in `s`, if any. */
  function IndexOf(s: string, sep: string): (r: Option<nat>)
    requires |sep| > 0
    ensures r.Some? ==> r.value + |sep| <= |s|
    decreases |s|
  {
    if |s| < |sep| then None
    else if s[..|sep|] == sep then Some(0)
    else match IndexOf(s[1..], sep)
      case None => None
      case Some(k) => Some(k + 1)
  }

  /** `IndexOf` finds an occurrence, and none before it; when it finds nothing
      there is no occurrence at all. */
  lemma {:induction false} IndexOfLeftmost(s: string, sep: string)
    requires |sep| > 0
    ensures IndexOf(s, sep).Some? ==> OccursAt(s, sep, IndexOf(s, sep).value)
    ensures IndexOf(s, sep).Some? ==> forall k: nat :: k < IndexOf(s, sep).value ==> !OccursAt(s, sep, k)
    ensures IndexOf(s, sep).None? ==> forall k: nat :: !OccursAt(s, sep, k)
    decreases |s|
  {
    if |s| >= |sep| && s[..|sep|] != sep {
      IndexOfLeftmost(s[1..], sep);
      assert !OccursAt(s, sep, 0);
      forall k: nat | 1 <= k ensures OccursAt(s, sep, k) == OccursAt(s[1..], sep, k - 1) {
        if k + |sep| <= |s| {
          var here, there := s[k..k + |sep|], s[1..][k - 1..k - 1 + |sep|];
          forall i | 0 <= i < |sep| ensures here[i] == there[i] {
            assert s[1..][k - 1 + i] == s[k + i];
          }
          assert here == there;
        }
      }
    }
  }

  /** `strings.Split(s, sep)` for a non-empty separator: the pieces between the
      leftmost non-overlapping occurrences of `sep`. There is always at least one piece. */
  function Split(s: string, sep: string): (r: seq<string>)
    requires |sep| > 0
    ensures |r| >= 1
    decreases |s|
  {
    match IndexOf(s, sep)
    case None => [s]
    case Some(k) => [s[..k]] + Split(s[k + |sep|..], sep)
  }

  /** `strings.Join(parts, sep)`. */
  function Join(parts: seq<string>, sep: string): (r: string)
    decreases |parts|
  {
    if |parts| == 0 then ""
    else if |parts| == 1 then parts[0]
    else parts[0] + sep + Join(parts[1..], sep)
  }

  /** Number of occurrences of the character `c` in `s`. */
  function Count(s: string, c: char): nat
    decreases |s|
  {
    if s == [] then 0 else (if s[0] == c then 1 else 0) + Count(s[1..], c)
  }

  lemma {:induction false} CountAppend(a: string, b: string, c: char)
    ensures Count(a + b, c) == Count(a, c) + Count(b, c)
    decreases |a|
  {
    if a == [] {
      assert a + b == b;
    } else {
      assert (a + b)[1..] == a[1..] + b;
      CountAppend(a[1..], b, c);
    }
  }

  lemma {:induction false} CountAbsent(s: string, c: char)
    requires c !in s
    ensures Count(s, c) == 0
    decreases |s|
  {
    if s != [] {
      CountAbsent(s[1..], c);
    }
  }

  /** When the separator's first character does not occur in `p`, the leftmost
      occurrence of `sep` in `p + rest` is at `|p|` if `rest` starts with `sep`,
      and there is none at all if `rest` is empty. */
  lemma {:induction false} IndexAfterPiece(p: string, rest: string, sep: string)
    requires |sep| > 0 && sep[0] !in p
    requires rest == "" || (|sep| <= |rest| && rest[..|sep|] == sep)
    ensures rest == "" ==> IndexOf(p + rest, sep) == None
    ensures rest != "" ==> IndexOf(p + rest, sep) == Some(|p|)
    decreases |p|
  {
    var s := p + rest;
    if p == [] {
      assert s == rest;
    } else {
      assert s[0] == p[0] != sep[0];
      assert |s| >= |sep| ==> s[..|sep|][0] != sep[0];
      assert s[1..] == p[1..] + rest;
      IndexAfterPiece(p[1..], rest, sep);
    }
  }

  /** Splitting a text that begins with a separator-free piece `p` yields `p` first,
      followed by the pieces of what comes after the separator. */
  lemma SplitAfterPiece(p: string, rest: string, sep: string)
    requires |sep| > 0 && sep[0] !in p
    requires rest == "" || (|sep| <= |rest| && rest[..|sep|] == sep)
    ensures rest == "" ==> Split(p + rest, sep) == [p]
    ensures rest != "" ==> Split(p + rest, sep) == [p] + Split(rest[|sep|..], sep)
  {
    IndexAfterPiece(p, rest, sep);
    var s := p + rest;
    if rest == "" {
      assert s == p;
    } else {
      assert s[..|p|] == p;
      assert s[|p| + |sep|..] == rest[|sep|..];
    }
  }

  /** Round trip: joining separator-free pieces and splitting again gives the pieces back. */
  lemma {:induction false} SplitJoin(parts: seq<string>, sep: string)
    requires |sep| > 0 && |parts| >= 1
    requires forall i :: 0 <= i < |parts| ==> sep[0] !in parts[i]
    ensures Split(Join(parts, sep), sep) == parts
    decreases |parts|
  {
    if |parts| == 1 {
      SplitAfterPiece(parts[0], "", sep);
      assert parts[0] + "" == parts[0];
    } else {
      var rest := sep + Join(parts[1..], sep);
      assert Join(parts, sep) == parts[0] + rest;
      assert rest[..|sep|] == sep && rest[|sep|..] == Join(parts[1..], sep);
      SplitAfterPiece(parts[0], rest, sep);
      SplitJoin(parts[1..], sep);
      assert [parts[0]] + parts[1..] == parts;
    }
  }

  /** Round trip the other way: joining the pieces of any text gives the text back. */
  lemma {:induction false} JoinSplit(s: string, sep: string)
    requires |sep| > 0
    ensures Join(Split(s, sep), sep) == s
    decreases |s|
  {
    match IndexOf(s, sep)
    case None =>
    case Some(k) =>
      var rest := s[k + |sep|..];
      var pieces := Split(rest, sep);
      JoinSplit(rest, sep);
      assert s[k..k + |sep|] == sep by { IndexOfLeftmost(s, sep); }
      assert Join(Split(s, sep), sep) == s[..k] + sep + Join(pieces, sep) by {
        assert Split(s, sep) == [s[..k]] + pieces;
        assert ([s[..k]] + pieces)[1..] == pieces;
      }
      assert s == s[..k] + s[k..k + |sep|] + rest;
  }

  /** Joining `a` then `b` is joining each and putting one separator between them. */
  lemma {:induction false} JoinAppend(a: seq<string>, b: seq<string>, sep: string)
    requires |a| >= 1 && |b| >= 1
    ensures Join(a + b, sep) == Join(a, sep) + sep + Join(b, sep)
    decreases |a|
  {
    if |a| == 1 {
      assert (a + b)[1..] == b;
    } else {
      assert (a + b)[1..] == a[1..] + b;
      JoinAppend(a[1..], b, sep);
    }
  }

  /** Splitting on a one-character separator gives one piece more than there are
      separators, and no piece contains the separator. */
  lemma {:induction false} SplitOnChar(s: string, c: char)
    ensures |Split(s, [c])| == Count(s, c) + 1
    ensures forall i :: 0 <= i < |Split(s, [c])| ==> c !in Split(s, [c])[i]
    decreases |s|
  {
    var sep := [c];
    IndexOfLeftmost(s, sep);
    match IndexOf(s, sep)
    case None =>
      assert c !in s by {
        forall k | 0 <= k < |s| ensures s[k] != c {
          assert s[k..k + 1] == [s[k]];
          assert OccursAt(s, sep, k) == (s[k] == c);
        }
      }
      CountAbsent(s, c);
    case Some(k) =>
      var rest := s[k + 1..];
      assert c !in s[..k] by {
        forall j | 0 <= j < k ensures s[j] != c {
          assert s[j..j + 1] == [s[j]];
          assert OccursAt(s, sep, j) == (s[j] == c);
        }
      }
      assert s[k..k + 1] == sep;
      assert s == s[..k] + ([c] + rest);
      CountAppend(s[..k], [c] + rest, c);
      CountAppend([c], rest, c);
      CountAbsent(s[..k], c);
      SplitOnChar(rest, c);
  }

  /** The first `n` pieces of `Split(s, sep)`, joined again, are a prefix of `s`
      followed either by the end of `s` or by `sep`. */
  lemma JoinedPrefix(s: string, sep: string, n: nat)
    requires |sep| > 0 && 1 <= n <= |Split(s, sep)|
    ensures var t := Join(Split(s, sep)[..n], sep);
      |t| <= |s| && s[..|t|] == t &&
      (|t| == |s| || (|t| + |sep| <= |s| && s[|t|..|t| + |sep|] == sep))
  {
    var ps := Split(s, sep);
    var t := Join(ps[..n], sep);
    if n < |ps| {
      JoinSplitAt(s, sep, n);
      ConcatParts(s, t, sep, Join(ps[n..], sep));
    } else {
      assert t == s by {
        JoinSplit(s, sep);
        assert ps[..n] == ps;
      }
      assert s[..|t|] == s;
    }
  }

  /** Cutting the pieces of `s` after the first `n` and joining each side gives
      `s` back with one separator between the two sides. */
  lemma JoinSplitAt(s: string, sep: string, n: nat)
    requires |sep| > 0 && 1 <= n < |Split(s, sep)|
    ensures s == Join(Split(s, sep)[..n], sep) + sep + Join(Split(s, sep)[n..], sep)
  {
    var ps := Split(s, sep);
    JoinSplit(s, sep);
    JoinAppend(ps[..n], ps[n..], sep);
    assert ps[..n] + ps[n..] == ps;
  }

  lemma ConcatParts(s: string, t: string, sep: string, u: string)
    requires s == t + sep + u
    ensures |t| + |sep| <= |s| && s[..|t|] == t && s[|t|..|t| + |sep|] == sep
  {
  }

  /** An occurrence in the text after `off` is an occurrence in the whole text,
      `off` positions further on. */
  lemma OccursShift(s: string, sep: string, off: nat, m: nat)
    requires off <= |s|
    ensures OccursAt(s[off..], sep, m) <==> OccursAt(s, sep, off + m)
  {
    if off + m + |sep| <= |s| {
      assert s[off..][m..m + |sep|] == s[off + m..off + m + |sep|];
    }
  }

  /** An occurrence inside a prefix is an occurrence in the whole text. */
  lemma OccursInPrefix(s: string, sep: string, k: nat, m: nat)
    requires k <= |s|
    ensures OccursAt(s[..k], sep, m) ==> OccursAt(s, sep, m)
  {
    if m + |sep| <= k {
      assert s[..k][m..m + |sep|] == s[m..m + |sep|];
    }
  }

  /** No piece of a split contains the separator. */
  lemma {:induction false} SplitPiecesFree(s: string, sep: string)
    requires |sep| > 0
    ensures forall i, m: nat :: 0 <= i < |Split(s, sep)| ==> !OccursAt(Split(s, sep)[i], sep, m)
    decreases |s|
  {
    IndexOfLeftmost(s, sep);
    match IndexOf(s, sep)
    case None =>
    case Some(k) =>
      var rest := s[k + |sep|..];
      SplitPiecesFree(rest, sep);
      assert Split(s, sep) == [s[..k]] + Split(rest, sep);
      forall m: nat ensures !OccursAt(s[..k], sep, m) {
        OccursInPrefix(s, sep, k, m);
      }
      forall i, m: nat | 1 <= i < |Split(s, sep)| ensures !OccursAt(Split(s, sep)[i], sep, m) {
        assert Split(s, sep)[i] == Split(rest, sep)[i - 1];
      }
  }

  /** A split with at least three pieces has met the separator twice. */
  lemma ThreePiecesOccurTwice(s: string, sep: string) returns (i: nat, j: nat)
    requires |sep| > 0 && |Split(s, sep)| >= 3
    ensures i + |sep| <= j && OccursAt(s, sep, i) && OccursAt(s, sep, j)
  {
    IndexOfLeftmost(s, sep);
    i := IndexOf(s, sep).value;
    var rest := s[i + |sep|..];
    assert Split(s, sep) == [s[..i]] + Split(rest, sep);
    IndexOfLeftmost(rest, sep);
    var k2 := IndexOf(rest, sep).value;
    OccursShift(s, sep, i + |sep|, k2);
    j := i + |sep| + k2;
  }

  /** Two separator occurrences that do not overlap give at least three pieces. */
  lemma OccurTwiceThreePieces(s: string, sep: string, i: nat, j: nat)
    requires |sep| > 0 && i + |sep| <= j && OccursAt(s, sep, i) && OccursAt(s, sep, j)
    ensures |Split(s, sep)| >= 3
  {
    IndexOfLeftmost(s, sep);
    var k := IndexOf(s, sep).value;
    assert k <= i;
    var rest := s[k + |sep|..];
    assert Split(s, sep) == [s[..k]] + Split(rest, sep);
    OccursShift(s, sep, k + |sep|, j - k - |sep|);
    IndexOfLeftmost(rest, sep);
    assert IndexOf(rest, sep).Some?;
  }

  /** A split yields at least three pieces exactly when the separator occurs at
      two positions that do not overlap. */
  lemma SplitAtLeastThree(s: string, sep: string)
    requires |sep| > 0
    ensures |Split(s, sep)| >= 3 <==>
      exists i: nat, j: nat :: i + |sep| <= j && OccursAt(s, sep, i) && OccursAt(s, sep, j)
  {
    if |Split(s, sep)| >= 3 {
      var i, j := ThreePiecesOccurTwice(s, sep);
    }
    if exists i: nat, j: nat :: i + |sep| <= j && OccursAt(s, sep, i) && OccursAt(s, sep, j) {
      var i: nat, j: nat :| i + |sep| <= j && OccursAt(s, sep, i) && OccursAt(s, sep, j);
      OccurTwiceThreePieces(s, sep, i, j);
    }
  }

  /** Splitting three separator-free pieces joined by `sep`, followed by nothing
      or by a further separator, gives those three pieces first. */
  lemma SplitThree(x: string, y: string, z: string, extra: string, sep: string)
    requires |sep| > 0 && sep[0] !in x && sep[0] !in y && sep[0] !in z
    requires extra == "" || (|sep| <= |extra| && extra[..|sep|] == sep)
    ensures var s := Split(x + sep + y + sep + z + extra, sep);
      |s| >= 3 && s[0] == x && s[1] == y && s[2] == z
  {
    var t2 := z + extra;
    var t1 := y + sep + t2;
    var tail := Split(t2, sep);
    assert tail[0] == z by { SplitAfterPiece(z, extra, sep); }
    calc {
      Split(x + sep + y + sep + z + extra, sep);
      { assert x + sep + y + sep + z + extra == x + sep + t1; }
      Split(x + sep + t1, sep);
      { SplitHead(x, sep, t1); }
      [x] + Split(t1, sep);
      { SplitHead(y, sep, t2); }
      [x] + ([y] + tail);
    }
  }

  /** Splitting a separator-free piece followed by the separator peels off that piece. */
  lemma SplitHead(p: string, sep: string, t: string)
    requires |sep| > 0 && sep[0] !in p
    ensures Split(p + sep + t, sep) == [p] + Split(t, sep)
  {
    var rest := sep + t;
    assert rest[..|sep|] == sep && rest[|sep|..] == t;
    assert p + sep + t == p + rest;
    SplitAfterPiece(p, rest, sep);
  }

  /** Joining three pieces puts the separator between each neighbouring pair. */
  lemma JoinThree(a: string, b: string, c: string, sep: string)
    ensures Join([a, b, c], sep) == a + sep + b + sep + c
  {
    assert [a, b, c][1..] == [b, c];
    assert [b, c][1..] == [c];
    assert Join([b, c], sep) == b + sep + c;
    assert Join([a, b, c], sep) == a + sep + (b + sep + c);
    assert a + sep + (b + sep + c) == a + sep + b + sep + c;
  }

  // ---- bufio.ScanLines ----

  /** `bufio.ScanLines` removes one trailing carriage return from each line. */
  function DropCR(line: string): string {
    if |line| > 0 && line[|line| - 1] == '\r' then line[..|line| - 1] else line
  }

  /** The lines a `bufio.Scanner` with the default `ScanLines` split function
      yields for `data`: text up to each newline with a trailing carriage return
      removed, plus the final unterminated text if it is not empty. */
  function ScanLines(data: string): (lines: seq<string>)
    ensures forall i :: 0 <= i < |lines| ==> '\n' !in lines[i]
    decreases |data|
  {
    if data == [] then []
    else
      IndexOfLeftmost(data, "\n");
      NewlineFree(data, IndexOf(data, "\n"));
      match IndexOf(data, "\n")
      case None => [DropCR(data)]
      case Some(k) => [DropCR(data[..k])] + ScanLines(data[k + 1..])
  }

  /** Where `IndexOf` finds no newline before a position, the text before it has none. */
  lemma NewlineFree(data: string, found: Option<nat>)
    requires found.Some? ==> found.value <= |data|
    requires found.Some? ==> forall k: nat :: k < found.value ==> !OccursAt(data, "\n", k)
    requires found.None? ==> forall k: nat :: !OccursAt(data, "\n", k)
    ensures found.None? ==> '\n' !in data
    ensures found.Some? ==> '\n' !in data[..found.value]
  {
    var end := if found.Some? then found.value else |data|;
    forall k | 0 <= k < end ensures data[k] != '\n' {
      assert OccursAt(data, "\n", k) == (data[k..k + 1] == "\n");
      assert (data[k..k + 1] == "\n") == (data[k] == '\n');
    }
  }

  /** The text of `lines`, each followed by a newline. */
  function Unlines(lines: seq<string>): string
    decreases |lines|
  {
    if lines == [] then "" else lines[0] + "\n" + Unlines(lines[1..])
  }

  /** A line that survives scanning unchanged: no newline, no trailing carriage return. */
  predicate ScannableLine(line: string) {
    '\n' !in line && (|line| == 0 || line[|line| - 1] != '\r')
  }

  /** Round trip: scanning the text of newline-terminated lines gives the lines back. */
  lemma {:induction false} ScanUnlines(lines: seq<string>)
    requires forall i :: 0 <= i < |lines| ==> ScannableLine(lines[i])
    ensures ScanLines(Unlines(lines)) == lines
    decreases |lines|
  {
    if lines != [] {
      var rest := "\n" + Unlines(lines[1..]);
      assert Unlines(lines) == lines[0] + rest;
      IndexAfterPiece(lines[0], rest, "\n");
      var data := lines[0] + rest;
      assert data[..|lines[0]|] == lines[0];
      assert data[|lines[0]| + 1..] == Unlines(lines[1..]);
      ScanUnlines(lines[1..]);
    }
  }

  /** Appending a newline-terminated line to a newline-terminated text appends one scanned line. */
  lemma {:induction false} ScanAppendLine(lines: seq<string>, line: string)
    requires forall i :: 0 <= i < |lines| ==> ScannableLine(lines[i])
    requires ScannableLine(line)
    ensures Unlines(lines + [line]) == Unlines(lines) + line + "\n"
    ensures ScanLines(Unlines(lines) + line + "\n") == lines + [line]
    decreases |lines|
  {
    UnlinesAppend(lines, line);
    ScanUnlines(lines + [line]);
  }

  lemma {:induction false} UnlinesAppend(lines: seq<string>, line: string)
    ensures Unlines(lines + [line]) == Unlines(lines) + line + "\n"
    decreases |lines|
  {
    if lines == [] {
      assert lines + [line] == [line];
    } else {
      assert (lines + [line])[1..] == lines[1..] + [line];
      UnlinesAppend(lines[1..], line);
    }
  }
}
