/**
 * The Python string built-ins the claim matcher relies on, on `string` (`seq<char>`):
 * substring search (`in`, `str.find`), `str.split` on a one-character separator,
 * `str.replace` of one character, and clamped slicing `s[a:b]`.
 */
module Text {
  import opened Outcomes

  /** `sub` occurs in `s` starting at index `k`. */
  predicate OccursAt(s: string, sub: string, k: nat) {
    k + |sub| <= |s| && s[k..k + |sub|] == sub
  }

  /** `k` is the first index at which `sub` occurs in `s`. */
  predicate FirstAt(s: string, sub: string, k: nat) {
    OccursAt(s, sub, k) && forall j :: 0 <= j < k ==> !OccursAt(s, sub, j)
  }

  /** There is only one first occurrence. */
  lemma FirstAtUnique(s: string, sub: string, a: nat, b: nat)
    requires FirstAt(s, sub, a) && FirstAt(s, sub, b)
    ensures a == b
  {
  }

  /** The first index at or after `from` where `sub` occurs in `s`. */
  function FindFrom(s: string, sub: string, from: nat): (r: Option<nat>)
    decreases |s| - from
    ensures r.Some? ==> from <= r.value && OccursAt(s, sub, r.value)
    ensures r.Some? ==> forall j :: from <= j < r.value ==> !OccursAt(s, sub, j)
    ensures r.None? ==> forall j :: from <= j ==> !OccursAt(s, sub, j)
  {
    if from + |sub| > |s| then None
    else if OccursAt(s, sub, from) then Some(from)
    else FindFrom(s, sub, from + 1)
  }

  /** Python `s.find(sub)`, with `None` for -1. */
  function Find(s: string, sub: string): (r: Option<nat>)
    ensures r.Some? ==> FirstAt(s, sub, r.value)
    ensures r.None? <==> forall j :: !OccursAt(s, sub, j)
  {
    FindFrom(s, sub, 0)
  }

  /** Python `sub in s`. */
  predicate Contains(s: string, sub: string) {
    Find(s, sub).Some?
  }

  /** For a one-character needle, `Contains` is plain membership. */
  lemma ContainsChar(s: string, c: char)
    ensures Contains(s, [c]) <==> c in s
  {
    if c in s {
      var k :| 0 <= k < |s| && s[k] == c;
      assert s[k..k + 1] == [c];
      assert OccursAt(s, [c], k);
    }
    if Contains(s, [c]) {
      var k := Find(s, [c]).value;
      assert s[k..k + 1][0] == s[k];
    }
  }

  /** The text after the first `c` of `s`: Python `s.split(c, 1)[1]`, `None` where that raises. */
  function AfterFirst(s: string, c: char): (r: Option<string>)
    ensures r.Some? <==> c in s
  {
    if s == [] then None
    else if s[0] == c then Some(s[1..])
    else AfterFirst(s[1..], c)
  }

  /** `s` is the text before its first `c` (which holds no `c`), then `c`, then `AfterFirst`. */
  lemma {:induction false} AfterFirstCuts(s: string, c: char)
    requires c in s
    ensures var rest := AfterFirst(s, c).value; var k := |s| - |rest| - 1;
      0 <= k && s[k] == c && c !in s[..k] && s == s[..k] + [c] + rest
  {
    if s[0] != c {
      AfterFirstCuts(s[1..], c);
      var rest := AfterFirst(s, c).value;
      var k := |s| - |rest| - 1;
      assert s[1..][..k - 1] == s[1..k];
      assert s[..k] == [s[0]] + s[1..k];
    } else {
      assert s[..0] == [];
    }
  }

  /** The text after the first `c` of `x + [c] + y` is `y` when `x` holds no `c`. */
  lemma {:induction false} AfterFirstAt(x: string, c: char, y: string)
    requires c !in x
    ensures AfterFirst(x + [c] + y, c) == Some(y)
  {
    var s := x + [c] + y;
    if x == [] {
      assert s == [c] + y && s[1..] == y;
    } else {
      assert s[1..] == x[1..] + [c] + y;
      AfterFirstAt(x[1..], c, y);
    }
  }

  /**
   * Python `s.split(sep)` for a one-character separator: the pieces between
   * separators, empty pieces included, so `"".split(" ") == [""]`.
   */
  function Split(s: string, sep: char): (r: seq<string>)
    ensures |r| >= 1
    ensures forall t :: 0 <= t < |r| ==> sep !in r[t]
  {
    if s == [] then [""]
    else
      var rest := Split(s[1..], sep);
      if s[0] == sep then [""] + rest else [[s[0]] + rest[0]] + rest[1..]
  }

  /** A string without the separator is one piece. */
  lemma {:induction false} SplitWithoutSeparator(s: string, sep: char)
    requires sep !in s
    ensures Split(s, sep) == [s]
  {
    if s != [] {
      SplitWithoutSeparator(s[1..], sep);
      assert [s[0]] + s[1..] == s;
    }
  }

  /** Splitting at the first separator: the text before it is the first piece. */
  lemma {:induction false} SplitAtFirst(x: string, y: string, sep: char)
    requires sep !in x
    ensures Split(x + [sep] + y, sep) == [x] + Split(y, sep)
  {
    if x == [] {
      assert x + [sep] + y == [sep] + y;
      assert ([sep] + y)[1..] == y;
    } else {
      var s := x + [sep] + y;
      assert s[1..] == x[1..] + [sep] + y;
      SplitAtFirst(x[1..], y, sep);
      assert [x[0]] + x[1..] == x;
    }
  }

  /** Python `sep.join(pieces)`. */
  function Join(pieces: seq<string>, sep: char): string
    requires |pieces| >= 1
  {
    if |pieces| == 1 then pieces[0] else pieces[0] + [sep] + Join(pieces[1..], sep)
  }

  /** Splitting loses nothing: joining the pieces back gives the original string. */
  lemma {:induction false} JoinSplit(s: string, sep: char)
    ensures Join(Split(s, sep), sep) == s
  {
    if s != [] {
      var rest := Split(s[1..], sep);
      JoinSplit(s[1..], sep);
      if s[0] == sep {
        assert Split(s, sep)[1..] == rest;
      } else {
        var r := Split(s, sep);
        if |rest| == 1 {
          assert r == [[s[0]] + rest[0]];
        } else {
          assert r[1..] == rest[1..];
          assert Join(r, sep) == [s[0]] + rest[0] + [sep] + Join(rest[1..], sep);
        }
      }
    }
  }

  /** Pieces without the separator are what splitting their join gives back. */
  lemma {:induction false} SplitJoin(pieces: seq<string>, sep: char)
    requires |pieces| >= 1 && forall t :: 0 <= t < |pieces| ==> sep !in pieces[t]
    ensures Split(Join(pieces, sep), sep) == pieces
  {
    if |pieces| == 1 {
      SplitWithoutSeparator(pieces[0], sep);
    } else {
      SplitJoin(pieces[1..], sep);
      SplitAtFirst(pieces[0], Join(pieces[1..], sep), sep);
      assert [pieces[0]] + pieces[1..] == pieces;
    }
  }

  /** Python `s.replace(c, "")`. */
  function Remove(s: string, c: char): (r: string)
    ensures c !in r
    ensures forall d :: d != c && d in s ==> d in r
    ensures forall d :: d in r ==> d in s
  {
    if s == [] then []
    else (if s[0] == c then [] else [s[0]]) + Remove(s[1..], c)
  }

  /** Removing a character that does not occur changes nothing. */
  lemma {:induction false} RemoveAbsent(s: string, c: char)
    requires c !in s
    ensures Remove(s, c) == s
  {
    if s != [] {
      RemoveAbsent(s[1..], c);
      assert s == [s[0]] + s[1..];
    }
  }

  /** Removing `c` works piece by piece: the other characters keep their order. */
  lemma {:induction false} RemoveConcat(x: string, y: string, c: char)
    ensures Remove(x + y, c) == Remove(x, c) + Remove(y, c)
  {
    if x == [] {
      assert x + y == y;
    } else {
      var head := if x[0] == c then [] else [x[0]];
      assert (x + y)[0] == x[0] && (x + y)[1..] == x[1..] + y;
      RemoveConcat(x[1..], y, c);
      var a, b := Remove(x[1..], c), Remove(y, c);
      calc {
        Remove(x + y, c);
        head + Remove(x[1..] + y, c);
        head + (a + b);
        { assert head + (a + b) == (head + a) + b; }
        (head + a) + b;
        Remove(x, c) + Remove(y, c);
      }
    }
  }

  /** Python `s.replace(c, d)` for one-character `c` and `d`. */
  function Substitute(s: string, c: char, d: char): (r: string)
    ensures |r| == |s|
    ensures forall k :: 0 <= k < |s| ==> r[k] == if s[k] == c then d else s[k]
  {
    if s == [] then []
    else [if s[0] == c then d else s[0]] + Substitute(s[1..], c, d)
  }

  /** Python slicing `s[a:b]` for non-negative bounds, which clamps both to `len(s)`. */
  function PySlice(s: string, a: nat, b: nat): (r: string)
    ensures |r| == if a < b && a < |s| then (if b <= |s| then b else |s|) - a else 0
    ensures forall k :: 0 <= k < |r| ==> a + k < |s| && r[k] == s[a + k]
  {
    var hi := if b <= |s| then b else |s|;
    var lo := if a <= hi then a else hi;
    s[lo..hi]
  }
}
