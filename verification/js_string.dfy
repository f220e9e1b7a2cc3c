/**
  The JavaScript String built-ins that the OTLP header parser relies on:
  `String.prototype.split` with a one-character separator (and `join`, its
  inverse) and `String.prototype.trim`. Strings are sequences of Unicode
  scalar values.
 */
module JsString {

  /** A WhiteSpace or LineTerminator code point of ECMAScript (sections 12.2
      and 12.3 of ECMA-262): exactly what `trim` removes at either end. */
  predicate IsWhiteSpace(c: char) {
    var n := c as int;
    // WhiteSpace: TAB, VT, FF, ZWNBSP and the Space_Separator (Zs) category
    || n == 0x09 || n == 0x0B || n == 0x0C || n == 0xFEFF
    || n == 0x20 || n == 0xA0 || n == 0x1680 || 0x2000 <= n <= 0x200A
    || n == 0x202F || n == 0x205F || n == 0x3000
    // LineTerminator: LF, CR, LINE SEPARATOR, PARAGRAPH SEPARATOR
    || n == 0x0A || n == 0x0D || n == 0x2028 || n == 0x2029
  }

  predicate AllWhiteSpace(s: string) {
    forall i :: 0 <= i < |s| ==> IsWhiteSpace(s[i])
  }

  /** Neither end of `s` is white space (the empty string qualifies). */
  predicate IsTrimmed(s: string) {
    s == [] || (!IsWhiteSpace(s[0]) && !IsWhiteSpace(s[|s| - 1]))
  }

  /** Drops the leading white space: the result is the longest suffix of `s`
      that does not start with white space. */
  function TrimStart(s: string): (r: string)
    ensures |r| <= |s| && r == s[|s| - |r|..]
    ensures AllWhiteSpace(s[..|s| - |r|])
    ensures r == [] || !IsWhiteSpace(r[0])
  {
    if s != [] && IsWhiteSpace(s[0]) then TrimStart(s[1..]) else s
  }

  /** Drops the trailing white space: the result is the longest prefix of `s`
      that does not end with white space. */
  function TrimEnd(s: string): (r: string)
    ensures |r| <= |s| && r == s[..|r|]
    ensures AllWhiteSpace(s[|r|..])
    ensures r == [] || !IsWhiteSpace(r[|r| - 1])
  {
    if s != [] && IsWhiteSpace(s[|s| - 1]) then TrimEnd(s[..|s| - 1]) else s
  }

  /** `s.trim()`: `s` without its leading and trailing white space. */
  function Trim(s: string): (r: string)
    ensures IsTrimmed(r) && |r| <= |s|
  {
    TrimEnd(TrimStart(s))
  }

  /** A character `Trim(s)` holds is in `s`. */
  lemma TrimKeeps(s: string, c: char)
    requires c in Trim(s)
    ensures c in s
  {
    var t := TrimStart(s);
    var r := TrimEnd(t);
    var k :| 0 <= k < |r| && r[k] == c;
    assert t[k] == c;
    assert s[|s| - |t| + k] == c;
  }

  /** Leading white space is all that `TrimStart` removes. */
  lemma {:induction false} TrimStartPadded(a: string, u: string)
    requires AllWhiteSpace(a) && (u == [] || !IsWhiteSpace(u[0]))
    ensures TrimStart(a + u) == u
  {
    if a != [] {
      assert (a + u)[1..] == a[1..] + u;
      TrimStartPadded(a[1..], u);
    }
  }

  /** Trailing white space is all that `TrimEnd` removes. */
  lemma {:induction false} TrimEndPadded(u: string, b: string)
    requires AllWhiteSpace(b) && (u == [] || !IsWhiteSpace(u[|u| - 1]))
    ensures TrimEnd(u + b) == u
  {
    if b != [] {
      assert (u + b)[..|u + b| - 1] == u + b[..|b| - 1];
      TrimEndPadded(u, b[..|b| - 1]);
    }
  }

  /** `Trim` is determined by its contract: padding a trimmed string with
      white space on both sides and trimming gives the string back. */
  lemma TrimPadded(a: string, t: string, b: string)
    requires AllWhiteSpace(a) && AllWhiteSpace(b) && IsTrimmed(t)
    ensures Trim(a + t + b) == t
  {
    if t == [] {
      assert a + t + b == (a + b) + [];
      TrimStartPadded(a + b, []);
    } else {
      assert a + t + b == a + (t + b);
      TrimStartPadded(a, t + b);
      TrimEndPadded(t, b);
    }
  }

  /** A trimmed string is its own trim: `trim` is idempotent. */
  lemma TrimTrimmed(t: string)
    requires IsTrimmed(t)
    ensures Trim(t) == t
  {
    TrimPadded([], t, []);
    assert [] + t + [] == t;
  }

  /** `parts.join(sep)`: the parts with one `sep` between neighbours. */
  function Join(parts: seq<string>, sep: char): string
  {
    if |parts| == 0 then []
    else if |parts| == 1 then parts[0]
    else parts[0] + [sep] + Join(parts[1..], sep)
  }

  /** `s.split(sep)` for a one-character separator: the maximal runs of
      `s` between separators, in order. There is always at least one part:
      an empty `s` gives one empty part. */
  function Split(s: string, sep: char): (parts: seq<string>)
    ensures |parts| >= 1
  {
    if s == [] then [[]]
    else
      var rest := Split(s[1..], sep);
      if s[0] == sep then [[]] + rest
      else [[s[0]] + rest[0]] + rest[1..]
  }

  /** Joining the parts with `sep` gives `s` back: nothing is lost by
      splitting. */
  lemma {:induction false} JoinSplit(s: string, sep: char)
    ensures Join(Split(s, sep), sep) == s
  {
    if s != [] {
      JoinSplit(s[1..], sep);
      var rest := Split(s[1..], sep);
      if s[0] == sep {
        assert Split(s, sep)[1..] == rest;
      } else {
        var parts := Split(s, sep);
        assert parts[1..] == rest[1..];
        assert |rest| > 1 ==> Join(rest, sep) == rest[0] + [sep] + Join(rest[1..], sep);
      }
      assert [s[0]] + s[1..] == s;
    }
  }

  /** No part contains the separator. */
  lemma {:induction false} SplitPartsFree(s: string, sep: char, i: nat)
    requires i < |Split(s, sep)|
    ensures sep !in Split(s, sep)[i]
  {
    if s != [] {
      var rest := Split(s[1..], sep);
      if s[0] == sep {
        if i > 0 { SplitPartsFree(s[1..], sep, i - 1); }
      } else if i == 0 {
        SplitPartsFree(s[1..], sep, 0);
      } else {
        SplitPartsFree(s[1..], sep, i);
      }
    }
  }

  /** Text without a separator is a single part. */
  lemma {:induction false} SplitNoSeparator(s: string, sep: char)
    requires sep !in s
    ensures Split(s, sep) == [s]
  {
    if s != [] {
      SplitNoSeparator(s[1..], sep);
      assert [s[0]] + s[1..] == s;
    }
  }

  /** One step of `Split`: the first character either ends the first part
      (a separator) or is prepended to it. */
  lemma SplitCons(c: char, s: string, sep: char)
    ensures Split([c] + s, sep) ==
      if c == sep then [[]] + Split(s, sep) else [[c] + Split(s, sep)[0]] + Split(s, sep)[1..]
  {
    assert ([c] + s)[1..] == s;
  }

  /** Splitting around one separator splits each side independently. */
  lemma {:induction false} SplitAround(a: string, sep: char, b: string)
    ensures Split(a + [sep] + b, sep) == Split(a, sep) + Split(b, sep)
  {
    if a == [] {
      calc {
        Split(a + [sep] + b, sep);
        { assert a + [sep] + b == [sep] + b; }
        Split([sep] + b, sep);
        { SplitCons(sep, b, sep); }
        [[]] + Split(b, sep);
      }
    } else {
      var c, a' := a[0], a[1..];
      SplitAround(a', sep, b);
      SplitAroundStep(c, a', sep, b);
      assert [c] + a' == a;
      assert [c] + (a' + [sep] + b) == a + [sep] + b;
    }
  }

  /** The inductive step of `SplitAround`: prepending a character to the
      left side. */
  lemma SplitAroundStep(c: char, a: string, sep: char, b: string)
    requires Split(a + [sep] + b, sep) == Split(a, sep) + Split(b, sep)
    ensures Split([c] + (a + [sep] + b), sep) == Split([c] + a, sep) + Split(b, sep)
  {
    if c == sep {
      SplitAroundSeparator(c, a, sep, b);
    } else {
      SplitAroundOther(c, a, sep, b);
    }
  }

  lemma SplitAroundSeparator(c: char, a: string, sep: char, b: string)
    requires c == sep
    requires Split(a + [sep] + b, sep) == Split(a, sep) + Split(b, sep)
    ensures Split([c] + (a + [sep] + b), sep) == Split([c] + a, sep) + Split(b, sep)
  {
    var tail, split := Split(a, sep), Split(b, sep);
    calc {
      Split([c] + (a + [sep] + b), sep);
      { SplitCons(c, a + [sep] + b, sep); }
      [[]] + (tail + split);
      ([[]] + tail) + split;
      { SplitCons(c, a, sep); }
      Split([c] + a, sep) + split;
    }
  }

  lemma SplitAroundOther(c: char, a: string, sep: char, b: string)
    requires c != sep
    requires Split(a + [sep] + b, sep) == Split(a, sep) + Split(b, sep)
    ensures Split([c] + (a + [sep] + b), sep) == Split([c] + a, sep) + Split(b, sep)
  {
    var tail, split := Split(a, sep), Split(b, sep);
    var first := [c] + tail[0];
    calc {
      Split([c] + (a + [sep] + b), sep);
      { SplitCons(c, a + [sep] + b, sep); }
      [[c] + (tail + split)[0]] + (tail + split)[1..];
      { assert (tail + split)[0] == tail[0]; assert (tail + split)[1..] == tail[1..] + split; }
      [first] + (tail[1..] + split);
      ([first] + tail[1..]) + split;
      { SplitCons(c, a, sep); }
      Split([c] + a, sep) + split;
    }
  }

  /** There are at least two parts exactly when the separator occurs. */
  lemma SplitMany(s: string, sep: char)
    ensures |Split(s, sep)| >= 2 <==> sep in s
  {
    if sep in s {
      var i :| 0 <= i < |s| && s[i] == sep;
      assert s == s[..i] + [sep] + s[i + 1..];
      SplitAround(s[..i], sep, s[i + 1..]);
    } else {
      SplitNoSeparator(s, sep);
    }
  }

  /** Round trip: parts free of the separator come back from splitting
      their join. */
  lemma {:induction false} SplitJoin(parts: seq<string>, sep: char)
    requires |parts| >= 1
    requires forall i :: 0 <= i < |parts| ==> sep !in parts[i]
    ensures Split(Join(parts, sep), sep) == parts
  {
    SplitNoSeparator(parts[0], sep);
    if |parts| > 1 {
      SplitJoin(parts[1..], sep);
      SplitAround(parts[0], sep, Join(parts[1..], sep));
      assert [parts[0]] + parts[1..] == parts;
    }
  }

  /** A character of a part is a character of the split string. */
  lemma SplitKeeps(s: string, sep: char, i: nat, c: char)
    requires i < |Split(s, sep)| && c in Split(s, sep)[i]
    ensures c in s
  {
    JoinKeeps(Split(s, sep), sep, i, c);
    JoinSplit(s, sep);
  }

  lemma {:induction false} JoinKeeps(parts: seq<string>, sep: char, i: nat, c: char)
    requires i < |parts| && c in parts[i]
    ensures c in Join(parts, sep)
  {
    if |parts| > 1 {
      if i == 0 {
        assert Join(parts, sep) == parts[0] + ([sep] + Join(parts[1..], sep));
      } else {
        JoinKeeps(parts[1..], sep, i - 1, c);
      }
    }
  }
}
