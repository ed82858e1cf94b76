/** The Python string operations the uploader relies on, on `seq<char>`:
    `startswith`, `in`, `find`, `replace`, `join`, and `split` (which the
    uploader never calls, but which reads a joined string back). */
module Strings {

  /** Python `s.startswith(p)`. */
  predicate StartsWith(s: string, p: string) {
    |p| <= |s| && s[..|p|] == p
  }

  /** Python `s.endswith(p)`. */
  predicate EndsWith(s: string, p: string) {
    |p| <= |s| && s[|s| - |p|..] == p
  }

  /** `sub` occurs in `s` starting at index `i`. */
  predicate OccursAt(s: string, sub: string, i: int) {
    0 <= i && i + |sub| <= |s| && s[i..i + |sub|] == sub
  }

  /** Python `sub in s`. */
  predicate Contains(s: string, sub: string) {
    exists i :: 0 <= i <= |s| - |sub| && OccursAt(s, sub, i)
  }

  /** No character of `a` is a character of `b`. */
  predicate Disjoint(a: string, b: string) {
    forall i, j :: 0 <= i < |a| && 0 <= j < |b| ==> a[i] != b[j]
  }

  /** Python `s.find(sub, i)`: the first index at or after `i` where `sub`
      occurs, or -1. */
  function FindFrom(s: string, sub: string, i: nat): (r: int)
    ensures r == -1 || (i <= r && OccursAt(s, sub, r))
    ensures forall j :: i <= j && (r == -1 || j < r) ==> !OccursAt(s, sub, j)
    decreases |s| - i
  {
    if i + |sub| > |s| then -1
    else if OccursAt(s, sub, i) then i
    else FindFrom(s, sub, i + 1)
  }

  /** Python `s.find(sub)`: the lowest index of `sub` in `s`, or -1 when it
      does not occur (an empty `sub` is found at 0). */
  function Find(s: string, sub: string): (r: int)
    ensures r == -1 <==> !Contains(s, sub)
    ensures r != -1 ==> OccursAt(s, sub, r) && forall j :: 0 <= j < r ==> !OccursAt(s, sub, j)
  {
    FindFrom(s, sub, 0)
  }

  /** `find` yields 0, the one falsy result, exactly for a prefix match. */
  lemma FindIsZeroIffPrefix(s: string, sub: string)
    ensures Find(s, sub) == 0 <==> StartsWith(s, sub)
  {
    assert OccursAt(s, sub, 0) <==> StartsWith(s, sub);
  }

  /** Python `s.replace("", rep)`: `rep` before every character and at the end. */
  function InsertEverywhere(s: string, rep: string): string
  {
    if |s| == 0 then rep else rep + [s[0]] + InsertEverywhere(s[1..], rep)
  }

  /** Python `s.replace(pat, rep)`: scanning left to right, every
      non-overlapping occurrence of `pat` becomes `rep`. */
  function Replace(s: string, pat: string, rep: string): string
    decreases |s|
  {
    if |pat| == 0 then InsertEverywhere(s, rep)
    else if StartsWith(s, pat) then rep + Replace(s[|pat|..], pat, rep)
    else if |s| == 0 then ""
    else [s[0]] + Replace(s[1..], pat, rep)
  }

  /** Python `sep.join(parts)`. */
  function Join(sep: string, parts: seq<string>): string
  {
    if |parts| == 0 then ""
    else if |parts| == 1 then parts[0]
    else parts[0] + sep + Join(sep, parts[1..])
  }

  /** Python `s.split(sep)` for a one-character separator: never empty. */
  function Split(s: string, sep: char): (parts: seq<string>)
    ensures |parts| >= 1
  {
    if |s| == 0 then [""]
    else
      var rest := Split(s[1..], sep);
      if s[0] == sep then [""] + rest
      else [[s[0]] + rest[0]] + rest[1..]
  }

  /** Splitting a string that starts with a common first character. */
  lemma UnconsPrefix(s: string, p: string)
    requires |s| > 0 && |p| > 0 && s[0] == p[0]
    ensures StartsWith(s, p) <==> StartsWith(s[1..], p[1..])
  {
    if StartsWith(s[1..], p[1..]) {
      assert s[..|p|] == [s[0]] + s[1..][..|p| - 1];
    }
    if StartsWith(s, p) {
      assert s[1..][..|p| - 1] == s[..|p|][1..];
    }
  }

  /** Replacing never manufactures a prefix made of characters that the
      replacement text does not use: such a prefix of the result was
      already a prefix of the input. */
  lemma {:induction false} ReplaceKeepsForeignPrefix(s: string, pat: string, rep: string, w: string)
    requires |pat| > 0 && |rep| > 0 && Disjoint(rep, w)
    ensures StartsWith(Replace(s, pat, rep), w) ==> StartsWith(s, w)
    decreases |s|
  {
    var r := Replace(s, pat, rep);
    if |w| == 0 {
    } else if StartsWith(s, pat) {
      assert r == rep + Replace(s[|pat|..], pat, rep);
      assert r[0] == rep[0] != w[0];
    } else if |s| == 0 {
      assert r == "";
    } else {
      var rt := Replace(s[1..], pat, rep);
      assert r == [s[0]] + rt;
      if s[0] == w[0] {
        assert Disjoint(rep, w[1..]) by {
          forall i, j | 0 <= i < |rep| && 0 <= j < |w[1..]|
            ensures rep[i] != w[1..][j]
          {
            assert w[1..][j] == w[j + 1];
          }
        }
        ReplaceKeepsForeignPrefix(s[1..], pat, rep, w[1..]);
        UnconsPrefix(r, w);
        assert r[1..] == rt;
        UnconsPrefix(s, w);
      }
    }
  }

  /** Replacing `pat` by a text sharing no character with it leaves no
      occurrence of `pat` behind. */
  lemma {:induction false} ReplaceLeavesNoOccurrence(s: string, pat: string, rep: string)
    requires |pat| > 0 && |rep| > 0 && Disjoint(rep, pat)
    ensures !Contains(Replace(s, pat, rep), pat)
    decreases |s|
  {
    var r := Replace(s, pat, rep);
    if StartsWith(s, pat) {
      var rt := Replace(s[|pat|..], pat, rep);
      ReplaceLeavesNoOccurrence(s[|pat|..], pat, rep);
      assert r == rep + rt;
      forall i ensures !OccursAt(r, pat, i) {
        if 0 <= i && i + |pat| <= |r| {
          if i < |rep| {
            assert r[i..i + |pat|][0] == rep[i];
            assert rep[i] != pat[0];
          } else {
            assert r[i..i + |pat|] == rt[i - |rep|..i - |rep| + |pat|];
            assert !OccursAt(rt, pat, i - |rep|);
          }
        }
      }
    } else if |s| == 0 {
      assert r == "";
    } else {
      var rt := Replace(s[1..], pat, rep);
      ReplaceLeavesNoOccurrence(s[1..], pat, rep);
      assert r == [s[0]] + rt;
      forall i ensures !OccursAt(r, pat, i) {
        if 0 <= i && i + |pat| <= |r| {
          if i == 0 {
            if s[0] == pat[0] {
              UnconsPrefix(s, pat);
              assert Disjoint(rep, pat[1..]) by {
                forall a, b | 0 <= a < |rep| && 0 <= b < |pat[1..]|
                  ensures rep[a] != pat[1..][b]
                {
                  assert pat[1..][b] == pat[b + 1];
                }
              }
              ReplaceKeepsForeignPrefix(s[1..], pat, rep, pat[1..]);
              assert r[1..] == rt;
              UnconsPrefix(r, pat);
              assert !StartsWith(r, pat);
            } else {
              assert r[0..|pat|][0] == s[0];
            }
          } else {
            assert r[i..i + |pat|] == rt[i - 1..i - 1 + |pat|];
            assert !OccursAt(rt, pat, i - 1);
          }
        }
      }
    }
  }

  /** Replacing a pattern that does not occur changes nothing. */
  lemma {:induction false} ReplaceAbsent(s: string, pat: string, rep: string)
    requires |pat| > 0 && !Contains(s, pat)
    ensures Replace(s, pat, rep) == s
    decreases |s|
  {
    if |s| > 0 {
      assert !OccursAt(s, pat, 0);
      assert !Contains(s[1..], pat) by {
        forall i ensures !OccursAt(s[1..], pat, i) {
          if 0 <= i && i + |pat| <= |s[1..]| {
            assert s[1..][i..i + |pat|] == s[i + 1..i + 1 + |pat|];
            assert !OccursAt(s, pat, i + 1);
          }
        }
      }
      ReplaceAbsent(s[1..], pat, rep);
    }
  }

  /** With an empty pattern, `rep` is inserted |s| + 1 times. */
  lemma {:induction false} InsertEverywhereLength(s: string, rep: string)
    ensures |Replace(s, "", rep)| == |s| + (|s| + 1) * |rep|
    decreases |s|
  {
    if |s| > 0 {
      InsertEverywhereLength(s[1..], rep);
    }
  }

  /** Joining a non-empty list by `sep` puts `sep` on both sides of every
      inner element. */
  lemma {:induction false} JoinSurroundsInner(sep: string, parts: seq<string>, i: int)
    requires 0 < i < |parts| - 1
    ensures Contains(Join(sep, parts), sep + parts[i] + sep)
    decreases i
  {
    var tail := Join(sep, parts[1..]);
    var w := sep + parts[i] + sep;
    assert Join(sep, parts) == parts[0] + sep + tail;
    if i == 1 {
      assert tail == parts[1] + sep + Join(sep, parts[2..]);
      assert Join(sep, parts)[|parts[0]|..|parts[0]| + |w|] == w;
      assert OccursAt(Join(sep, parts), w, |parts[0]|);
    } else {
      JoinSurroundsInner(sep, parts[1..], i - 1);
      assert parts[1..][i - 1] == parts[i];
      var k :| 0 <= k <= |tail| - |w| && OccursAt(tail, w, k);
      var full := Join(sep, parts);
      var off := |parts[0]| + |sep|;
      assert full == (parts[0] + sep) + tail;
      forall j | 0 <= j < |w| ensures full[off + k + j] == w[j] {
        assert full[off + k + j] == tail[k + j];
        assert tail[k..k + |w|][j] == tail[k + j];
      }
      assert full[off + k..off + k + |w|] == w;
      assert OccursAt(full, w, off + k);
    }
  }

  /** The last element of a list of two or more is preceded by `sep`. */
  lemma {:induction false} JoinEndsWithLast(sep: string, parts: seq<string>)
    requires |parts| >= 2
    ensures EndsWith(Join(sep, parts), sep + parts[|parts| - 1])
    decreases |parts|
  {
    if |parts| > 2 {
      JoinEndsWithLast(sep, parts[1..]);
    }
  }

  /** A joined list of three or more starts with its first two parts,
      each followed by `sep`. */
  lemma JoinStartsWithFirstTwo(sep: string, parts: seq<string>)
    requires |parts| >= 3
    ensures StartsWith(Join(sep, parts), parts[0] + sep + parts[1] + sep)
  {
    var j := Join(sep, parts);
    assert parts[1..][1..] == parts[2..];
    var rest := Join(sep, parts[2..]);
    assert Join(sep, parts[1..]) == parts[1] + sep + rest;
    assert j == parts[0] + sep + (parts[1] + sep + rest);
    assert j == (parts[0] + sep + parts[1] + sep) + rest;
  }

  /** Prefixes and suffixes survive putting text on the other side. */
  lemma AffixConcat(a: string, b: string, p: string)
    ensures StartsWith(b, p) ==> StartsWith(a + b, a + p)
    ensures EndsWith(a, p) ==> EndsWith(a + b, p + b)
    ensures EndsWith(b, p) ==> EndsWith(a + b, p)
  {
    if StartsWith(b, p) {
      assert (a + b)[..|a + p|] == a + b[..|p|];
    }
    if EndsWith(a, p) {
      assert (a + b)[|a + b| - |p + b|..] == a[|a| - |p|..] + b;
    }
    if EndsWith(b, p) {
      assert (a + b)[|a + b| - |p|..] == b[|b| - |p|..];
    }
  }

  /** Text put in front keeps every occurrence, shifted. */
  lemma ContainsAfterPrefix(a: string, b: string, w: string)
    ensures Contains(b, w) ==> Contains(a + b, w)
  {
    if Contains(b, w) {
      var k :| 0 <= k <= |b| - |w| && OccursAt(b, w, k);
      assert (a + b)[|a| + k..|a| + k + |w|] == b[k..k + |w|];
      assert OccursAt(a + b, w, |a| + k);
    }
  }

  /** Splitting then joining by the same separator gives back the string. */
  lemma {:induction false} JoinSplit(s: string, sep: char)
    ensures Join([sep], Split(s, sep)) == s
    decreases |s|
  {
    if |s| > 0 {
      var rest := Split(s[1..], sep);
      JoinSplit(s[1..], sep);
      if s[0] == sep {
        assert Split(s, sep) == [""] + rest;
        if |rest| == 1 {
          assert Join([sep], [""] + rest) == "" + [sep] + rest[0];
        } else {
          assert ([""] + rest)[1..] == rest;
        }
      } else {
        var parts := [[s[0]] + rest[0]] + rest[1..];
        assert Split(s, sep) == parts;
        if |rest| == 1 {
          assert parts == [[s[0]] + rest[0]];
        } else {
          assert parts[1..] == rest[1..];
          assert Join([sep], rest) == rest[0] + [sep] + Join([sep], rest[1..]);
        }
      }
    }
  }

  /** Splitting `p + tail` where `p` has no separator extends the first part. */
  lemma {:induction false} SplitPrefix(p: string, tail: string, sep: char)
    requires sep !in p
    ensures Split(p + tail, sep) == [p + Split(tail, sep)[0]] + Split(tail, sep)[1..]
    decreases |p|
  {
    var st := Split(tail, sep);
    if |p| == 0 {
      assert p + tail == tail;
      assert p + st[0] == st[0];
      assert st == [st[0]] + st[1..];
    } else {
      SplitPrefix(p[1..], tail, sep);
      assert (p + tail)[1..] == p[1..] + tail;
      assert (p + tail)[0] == p[0];
      var rest := Split(p[1..] + tail, sep);
      assert rest == [p[1..] + st[0]] + st[1..];
      assert Split(p + tail, sep) == [[p[0]] + rest[0]] + rest[1..];
      assert [p[0]] + (p[1..] + st[0]) == p + st[0];
      assert rest[1..] == st[1..];
    }
  }

  /** Joining parts that contain no separator, then splitting, gives back the parts. */
  lemma {:induction false} SplitJoin(parts: seq<string>, sep: char)
    requires |parts| >= 1
    requires forall i :: 0 <= i < |parts| ==> sep !in parts[i]
    ensures Split(Join([sep], parts), sep) == parts
    decreases |parts|
  {
    if |parts| == 1 {
      SplitPrefix(parts[0], "", sep);
      assert parts[0] + "" == parts[0];
    } else {
      var rest := Join([sep], parts[1..]);
      SplitJoin(parts[1..], sep);
      assert Join([sep], parts) == parts[0] + ([sep] + rest);
      SplitPrefix(parts[0], [sep] + rest, sep);
      assert ([sep] + rest)[1..] == rest;
      assert ([sep] + rest)[0] == sep;
      var st := Split([sep] + rest, sep);
      assert st == [""] + parts[1..];
      assert st[0] == "" && st[1..] == parts[1..];
      assert parts[0] + "" == parts[0];
      assert parts == [parts[0]] + parts[1..];
    }
  }
}
