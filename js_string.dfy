/** The JavaScript string operations the core relies on, on `seq<char>`:
    whitespace (the WhiteSpace and LineTerminator code points of ECMAScript),
    `trim`, `split(' ')`, `join`, `substring` and a case-insensitive `contains`. */
module JsString {

  import opened Wrappers

  /** The code points ECMAScript counts as WhiteSpace or LineTerminator. */
  predicate IsWhitespace(c: char)
  {
    var n := c as int;
    (0x09 <= n <= 0x0D) || n == 0x20 || n == 0xA0 || n == 0x1680 || (0x2000 <= n <= 0x200A) ||
    n == 0x2028 || n == 0x2029 || n == 0x202F || n == 0x205F || n == 0x3000 || n == 0xFEFF
  }

  predicate AllWhitespace(s: string)
  {
    forall i :: 0 <= i < |s| ==> IsWhitespace(s[i])
  }

  /** `s.trimStart()`: the suffix left after dropping leading whitespace. */
  function TrimStart(s: string): string
  {
    if s != [] && IsWhitespace(s[0]) then TrimStart(s[1..]) else s
  }

  /** `trimStart` keeps a suffix, drops only whitespace, and stops at the first other
      character. */
  lemma {:induction false} TrimStartSpec(s: string)
    ensures var r := TrimStart(s);
      && |r| <= |s| && r == s[|s| - |r|..]
      && AllWhitespace(s[..|s| - |r|])
      && (r == [] || !IsWhitespace(r[0]))
  {
    if s != [] && IsWhitespace(s[0]) {
      TrimStartSpec(s[1..]);
      var r := TrimStart(s[1..]);
      assert s[..|s| - |r|] == [s[0]] + s[1..][..|s| - 1 - |r|];
    }
  }

  /** Drops trailing whitespace. */
  function TrimEnd(s: string): string
  {
    if s != [] && IsWhitespace(s[|s| - 1]) then TrimEnd(s[..|s| - 1]) else s
  }

  /** Trimming the end keeps a prefix, drops only whitespace, and stops at the last other
      character. */
  lemma {:induction false} TrimEndSpec(s: string)
    ensures var r := TrimEnd(s);
      && |r| <= |s| && r == s[..|r|]
      && AllWhitespace(s[|r|..])
      && (r == [] || !IsWhitespace(r[|r| - 1]))
  {
    if s != [] && IsWhitespace(s[|s| - 1]) {
      TrimEndSpec(s[..|s| - 1]);
      var r := TrimEnd(s[..|s| - 1]);
      assert s[|r|..] == s[..|s| - 1][|r|..] + [s[|s| - 1]];
    }
  }

  /** `s.trim()`. */
  function Trim(s: string): (r: string)
  {
    TrimEnd(TrimStart(s))
  }

  /** What `trim` keeps is a contiguous piece of the input with whitespace on both sides of it,
      and it neither starts nor ends with whitespace. */
  lemma TrimIsInfix(s: string)
    ensures exists i :: (0 <= i <= |s| - |Trim(s)| && s[i..i + |Trim(s)|] == Trim(s) &&
      AllWhitespace(s[..i]) && AllWhitespace(s[i + |Trim(s)|..]))
    ensures Trim(s) == [] || (!IsWhitespace(Trim(s)[0]) && !IsWhitespace(Trim(s)[|Trim(s)| - 1]))
  {
    var u := TrimStart(s);
    var r := TrimEnd(u);
    TrimStartSpec(s);
    TrimEndSpec(u);
    var i := |s| - |u|;
    assert s[i..i + |r|] == u[..|r|];
    assert s[i + |r|..] == u[|r|..];
    if r != [] {
      assert r[0] == u[0];
    }
  }

  /** `trim` yields the empty string exactly when every character is whitespace. */
  lemma TrimEmptyIff(s: string)
    ensures Trim(s) == [] <==> AllWhitespace(s)
  {
    var u := TrimStart(s);
    TrimStartSpec(s);
    TrimEndSpec(u);
    assert u != [] ==> u[0] == s[|s| - |u|];
    assert Trim(s) == [] ==> AllWhitespace(u[0..]) && u[0..] == u;
    assert u == [] ==> s[..|s| - |u|] == s;
  }

  /** Leading whitespace in front of a string does not survive `trimStart`. */
  lemma {:induction false} TrimStartPadded(pad: string, x: string)
    requires AllWhitespace(pad)
    ensures TrimStart(pad + x) == TrimStart(x)
  {
    if pad == [] {
      assert pad + x == x;
    } else {
      assert (pad + x)[0] == pad[0];
      assert (pad + x)[1..] == pad[1..] + x;
      TrimStartPadded(pad[1..], x);
    }
  }

  /** Trailing whitespace after a string does not survive trimming its end. */
  lemma {:induction false} TrimEndPadded(x: string, pad: string)
    requires AllWhitespace(pad)
    ensures TrimEnd(x + pad) == TrimEnd(x)
  {
    if pad == [] {
      assert x + pad == x;
    } else {
      var n := |pad| - 1;
      assert (x + pad)[|x + pad| - 1] == pad[n];
      assert (x + pad)[..|x + pad| - 1] == x + pad[..n];
      TrimEndPadded(x, pad[..n]);
    }
  }

  /** Trimming the start of a string followed by whitespace keeps that whitespace, unless the
      string itself is all whitespace. */
  lemma {:induction false} TrimStartBeforePad(x: string, pad: string)
    requires AllWhitespace(pad)
    ensures TrimStart(x + pad) == if AllWhitespace(x) then [] else TrimStart(x) + pad
  {
    if x == [] {
      assert x + pad == pad;
      TrimStartPadded(pad, []);
      assert pad + [] == pad;
    } else if IsWhitespace(x[0]) {
      assert (x + pad)[0] == x[0];
      assert (x + pad)[1..] == x[1..] + pad;
      TrimStartBeforePad(x[1..], pad);
      assert AllWhitespace(x) == AllWhitespace(x[1..]) by {
        if AllWhitespace(x[1..]) {
          forall i | 0 <= i < |x| ensures IsWhitespace(x[i]) {
            if i > 0 {
              assert x[i] == x[1..][i - 1];
            }
          }
        }
      }
    } else {
      assert (x + pad)[0] == x[0];
    }
  }

  /** Whitespace around a string does not change what `trim` keeps. */
  lemma TrimPadded(x: string, pad: string)
    requires AllWhitespace(pad)
    ensures Trim(pad + x + pad) == Trim(x)
  {
    TrimStartBeforePad(pad + x, pad);
    TrimStartPadded(pad, x);
    if AllWhitespace(pad + x) {
      assert AllWhitespace(x) by {
        forall i | 0 <= i < |x| ensures IsWhitespace(x[i]) {
          assert x[i] == (pad + x)[|pad| + i];
        }
      }
      TrimEmptyIff(x);
      assert TrimEnd([]) == [];
    } else {
      TrimEndPadded(TrimStart(x), pad);
    }
  }

  /** `s.split(' ')` (a separator of one space): the pieces between spaces, in order;
      an empty input gives one empty piece. */
  function SplitOnSpace(s: string): (r: seq<string>)
    ensures |r| >= 1
    ensures forall k :: 0 <= k < |r| ==> ' ' !in r[k]
  {
    if s == [] then [""]
    else
      var rest := SplitOnSpace(s[1..]);
      if s[0] == ' ' then [""] + rest else [[s[0]] + rest[0]] + rest[1..]
  }

  /** A string without a space is one piece. */
  lemma {:induction false} SplitNoSpace(s: string)
    requires ' ' !in s
    ensures SplitOnSpace(s) == [s]
  {
    if s != [] {
      SplitNoSpace(s[1..]);
      assert [s[0]] + s[1..] == s;
    }
  }

  /** A word without a space, then a space: the word is the first piece. */
  lemma {:induction false} SplitAfterWord(a: string, b: string)
    requires ' ' !in a
    ensures SplitOnSpace(a + " " + b) == [a] + SplitOnSpace(b)
  {
    var s := a + " " + b;
    if a == [] {
      assert s[1..] == b;
    } else {
      SplitAfterWord(a[1..], b);
      assert s[1..] == a[1..] + " " + b;
      assert [a[0]] + a[1..] == a;
    }
  }

  /** `parts.join(sep)`. */
  function Join(parts: seq<string>, sep: string): (r: string)
  {
    if parts == [] then ""
    else if |parts| == 1 then parts[0]
    else parts[0] + sep + Join(parts[1..], sep)
  }

  /** Splitting on a space is undone by joining with a space. */
  lemma {:induction false} JoinSplit(s: string)
    ensures Join(SplitOnSpace(s), " ") == s
  {
    if s != [] {
      var rest := SplitOnSpace(s[1..]);
      JoinSplit(s[1..]);
      if s[0] == ' ' {
        assert SplitOnSpace(s) == [""] + rest;
        assert s == " " + s[1..];
      } else {
        var r := [[s[0]] + rest[0]] + rest[1..];
        if |rest| == 1 {
          assert s[1..] == rest[0];
        } else {
          assert r[1..] == rest[1..];
          assert s[1..] == rest[0] + " " + Join(rest[1..], " ");
        }
      }
    }
  }

  /** `s[j]` as JavaScript evaluates it: undefined past the end. */
  function ElementAt<T>(s: seq<T>, j: nat): (r: Option<T>)
    ensures r.Some? <==> j < |s|
    ensures r.Some? ==> r.value == s[j]
  {
    if j < |s| then Some(s[j]) else None
  }

  /** `s.substring(0, end)`: a negative end counts as 0 and an end past the string as its length. */
  function Prefix(s: string, end: int): (r: string)
    ensures r <= s
    ensures |r| == if end <= 0 then 0 else if end < |s| then end else |s|
  {
    if end <= 0 then "" else if end < |s| then s[..end] else s
  }

  /** Lower-cases the ASCII letters. */
  function LowerChar(c: char): (r: char)
    ensures 'A' <= c <= 'Z' ==> r as int == c as int + 32
    ensures !('A' <= c <= 'Z') ==> r == c
  {
    if 'A' <= c <= 'Z' then (c as int + 32) as char else c
  }

  function Lower(s: string): (r: string)
    ensures |r| == |s|
    ensures forall i :: 0 <= i < |s| ==> r[i] == LowerChar(s[i])
  {
    if s == [] then [] else [LowerChar(s[0])] + Lower(s[1..])
  }

  /** `needle` occurs in `hay` as a contiguous piece. */
  predicate Contains(hay: string, needle: string)
  {
    exists i :: 0 <= i <= |hay| && needle <= hay[i..]
  }

  /** A case-insensitive `contains` (letters folded as ASCII). */
  predicate ContainsInsensitive(hay: string, needle: string)
  {
    Contains(Lower(hay), Lower(needle))
  }
}
