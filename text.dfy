/** The JavaScript string built-ins the dashboards rely on, over `string` (a
    sequence of code points): `String.prototype.trim`, its leading half (used
    by `parseFloat`), and `String.prototype.split` with a one-character
    separator, together with the line-ending rewrite used to compare CRLF and
    LF text. */
module Text {

  /** WhiteSpace and LineTerminator code points of ECMAScript, the set that
      `trim` removes: tab, line feed, vertical tab, form feed, carriage return,
      space, no-break space, the Unicode space separators (category Zs), line
      and paragraph separators, and the byte-order mark. */
  const Whitespace: set<char> := {
    '\t', '\n', '\U{000B}', '\U{000C}', '\r', ' ', '\U{00A0}', '\U{1680}',
    '\U{2000}', '\U{2001}', '\U{2002}', '\U{2003}', '\U{2004}', '\U{2005}',
    '\U{2006}', '\U{2007}', '\U{2008}', '\U{2009}', '\U{200A}',
    '\U{2028}', '\U{2029}', '\U{202F}', '\U{205F}', '\U{3000}', '\U{FEFF}'
  }

  predicate IsWhitespace(c: char) {
    c in Whitespace
  }

  predicate AllWhitespace(s: string) {
    forall i :: 0 <= i < |s| ==> IsWhitespace(s[i])
  }

  /** Neither the first nor the last character is whitespace. */
  predicate IsTrimmed(s: string) {
    s == [] || (!IsWhitespace(s[0]) && !IsWhitespace(s[|s| - 1]))
  }

  /** `trimStart`: the result starts with a non-whitespace character. */
  function TrimStart(s: string): (r: string)
    ensures |r| <= |s|
    ensures r == [] || !IsWhitespace(r[0])
  {
    if s != [] && IsWhitespace(s[0]) then TrimStart(s[1..]) else s
  }

  /** `trimEnd`: the result is a prefix ending in a non-whitespace character. */
  function TrimEnd(s: string): (r: string)
    ensures |r| <= |s| && r == s[..|r|]
    ensures r == [] || !IsWhitespace(r[|r| - 1])
  {
    if s != [] && IsWhitespace(s[|s| - 1]) then TrimEnd(s[..|s| - 1]) else s
  }

  /** trimStart drops only whitespace: what it removes is all whitespace and
      what remains is the rest of the string. */
  lemma {:induction false} TrimStartDrops(s: string)
    ensures var r := TrimStart(s);
            r == s[|s| - |r|..] && AllWhitespace(s[..|s| - |r|])
    decreases |s|
  {
    if s != [] && IsWhitespace(s[0]) {
      TrimStartDrops(s[1..]);
      var r := TrimStart(s);
      assert s[..|s| - |r|] == [s[0]] + s[1..][..|s| - 1 - |r|];
    }
  }

  /** trimEnd drops only whitespace. */
  lemma {:induction false} TrimEndDrops(s: string)
    ensures AllWhitespace(s[|TrimEnd(s)|..])
    decreases |s|
  {
    if s != [] && IsWhitespace(s[|s| - 1]) {
      TrimEndDrops(s[..|s| - 1]);
      var r := TrimEnd(s);
      assert s[|r|..] == s[..|s| - 1][|r|..] + [s[|s| - 1]];
    }
  }

  /** `trim`. */
  function Trim(s: string): (r: string)
    ensures IsTrimmed(r)
    ensures |r| <= |s|
  {
    TrimEnd(TrimStart(s))
  }

  /** Trim picks out exactly the core between whitespace margins; with
      TrimStartDrops and TrimEndDrops above, this characterises it. */
  lemma {:induction false} TrimSurroundings(pre: string, core: string, post: string)
    requires AllWhitespace(pre) && AllWhitespace(post) && IsTrimmed(core)
    ensures Trim(pre + core + post) == core
  {
    TrimStartSkips(pre, core + post);
    assert pre + core + post == pre + (core + post);
    if core == [] {
      TrimStartAllWhitespace(post);
      assert core + post == post;
    } else {
      TrimStartKeeps(core + post);
      TrimEndSkips(core, post);
    }
  }

  lemma {:induction false} TrimStartSkips(pre: string, s: string)
    requires AllWhitespace(pre)
    ensures TrimStart(pre + s) == TrimStart(s)
    decreases |pre|
  {
    if pre != [] {
      var t := pre + s;
      assert t[0] == pre[0] && IsWhitespace(pre[0]);
      assert TrimStart(t) == TrimStart(t[1..]);
      assert t[1..] == pre[1..] + s;
      TrimStartSkips(pre[1..], s);
    } else {
      assert pre + s == s;
    }
  }

  lemma TrimStartAllWhitespace(s: string)
    requires AllWhitespace(s)
    ensures TrimStart(s) == []
  {
  }

  lemma TrimStartKeeps(s: string)
    requires s == [] || !IsWhitespace(s[0])
    ensures TrimStart(s) == s
  {
  }

  lemma {:induction false} TrimEndSkips(s: string, post: string)
    requires AllWhitespace(post)
    requires s == [] || !IsWhitespace(s[|s| - 1])
    ensures TrimEnd(s + post) == s
    decreases |post|
  {
    if post == [] {
      assert s + post == s;
    } else {
      var shorter := post[..|post| - 1];
      assert (s + post)[..|s + post| - 1] == s + shorter;
      TrimEndSkips(s, shorter);
    }
  }

  /** A string that is already trimmed is left alone; in particular `trim` is
      idempotent. */
  lemma TrimmedIsFixed(s: string)
    requires IsTrimmed(s)
    ensures Trim(s) == s
  {
    TrimSurroundings([], s, []);
    assert [] + s + [] == s;
  }

  /** Appending one more whitespace character does not change the trimmed
      string (a trailing carriage return, for instance). */
  lemma {:induction false} TrimIgnoresTrailingWhitespace(s: string, w: char)
    requires IsWhitespace(w)
    ensures Trim(s + [w]) == Trim(s)
  {
    var start := TrimStart(s);
    if start == [] {
      TrimStartDrops(s);
      assert AllWhitespace(s);
      assert AllWhitespace(s + [w]);
      TrimStartAllWhitespace(s + [w]);
    } else {
      TrimStartAppend(s, w);
      var t := start + [w];
      assert IsWhitespace(t[|t| - 1]);
      assert t[..|t| - 1] == start;
    }
  }

  lemma {:induction false} TrimStartAppend(s: string, w: char)
    requires TrimStart(s) != []
    ensures TrimStart(s + [w]) == TrimStart(s) + [w]
    decreases |s|
  {
    var t := s + [w];
    assert t[0] == s[0];
    if IsWhitespace(s[0]) {
      assert TrimStart(t) == TrimStart(t[1..]);
      assert t[1..] == s[1..] + [w];
      TrimStartAppend(s[1..], w);
    }
  }

  /** `s.split(sep)` for a one-character separator: the pieces between
      separators, in order; the empty string gives one empty piece. */
  function Split(s: string, sep: char): (r: seq<string>)
    ensures |r| >= 1
    ensures forall p :: p in r ==> sep !in p
    decreases |s|
  {
    if s == [] then [[]]
    else
      var rest := Split(s[1..], sep);
      if s[0] == sep then [[]] + rest
      else [[s[0]] + rest[0]] + rest[1..]
  }

  /** `pieces.join(sep)`, the inverse of Split. */
  function Join(pieces: seq<string>, sep: char): string
    requires |pieces| >= 1
  {
    if |pieces| == 1 then pieces[0] else pieces[0] + [sep] + Join(pieces[1..], sep)
  }

  /** Splitting loses nothing: joining the pieces gives the string back. */
  lemma {:induction false} JoinSplit(s: string, sep: char)
    ensures Join(Split(s, sep), sep) == s
    decreases |s|
  {
    if s != [] {
      var rest := Split(s[1..], sep);
      JoinSplit(s[1..], sep);
      if s[0] == sep {
        assert ([[]] + rest)[1..] == rest;
      } else {
        var r := [[s[0]] + rest[0]] + rest[1..];
        if |rest| == 1 {
          assert r == [[s[0]] + rest[0]];
        } else {
          assert r[1..] == rest[1..];
          assert Join(rest, sep) == rest[0] + [sep] + Join(rest[1..], sep);
        }
      }
    }
  }

  /** Pieces that do not contain the separator come back from a split of
      their join unchanged: Split and Join are mutually inverse. */
  lemma {:induction false} SplitJoin(pieces: seq<string>, sep: char)
    requires |pieces| >= 1
    requires forall p :: p in pieces ==> sep !in p
    ensures Split(Join(pieces, sep), sep) == pieces
    decreases |pieces|
  {
    if |pieces| == 1 {
      SplitWithoutSeparator(pieces[0], sep);
    } else {
      SplitJoin(pieces[1..], sep);
      SplitPrefix(pieces[0], Join(pieces[1..], sep), sep);
      assert pieces == [pieces[0]] + pieces[1..];
    }
  }

  /** A string without the separator splits into itself alone. */
  lemma {:induction false} SplitWithoutSeparator(s: string, sep: char)
    requires sep !in s
    ensures Split(s, sep) == [s]
    decreases |s|
  {
    if s != [] {
      SplitWithoutSeparator(s[1..], sep);
      assert [s[0]] + s[1..] == s;
    }
  }

  lemma {:induction false} SplitPrefix(p: string, rest: string, sep: char)
    requires sep !in p
    ensures Split(p + [sep] + rest, sep) == [p] + Split(rest, sep)
    decreases |p|
  {
    if p == [] {
      assert p + [sep] + rest == [sep] + rest;
      assert ([sep] + rest)[1..] == rest;
    } else {
      assert (p + [sep] + rest)[1..] == p[1..] + [sep] + rest;
      SplitPrefix(p[1..], rest, sep);
      assert [p[0]] + p[1..] == p;
    }
  }

  /** Appending a non-separator character extends the last piece only. */
  lemma {:induction false} SplitAppend(s: string, x: char, sep: char)
    requires x != sep
    ensures var r := Split(s, sep);
            Split(s + [x], sep) == r[..|r| - 1] + [r[|r| - 1] + [x]]
    decreases |s|
  {
    if s == [] {
      assert s + [x] == [x];
      SplitSingle(x, sep);
    } else {
      var t, t' := Split(s[1..], sep), Split(s[1..] + [x], sep);
      assert t' == t[..|t| - 1] + [t[|t| - 1] + [x]] by {
        SplitAppend(s[1..], x, sep);
      }
      assert Split(s + [x], sep) == if s[0] == sep then [[]] + t' else [[s[0]] + t'[0]] + t'[1..] by {
        assert (s + [x])[1..] == s[1..] + [x];
      }
      SplitConsAppend(s[0], t, t', x, sep);
    }
  }

  lemma SplitSingle(x: char, sep: char)
    requires x != sep
    ensures Split([x], sep) == [[x]]
  {
    var e: string := [];
    assert [x][1..] == e && [x] + e == [x];
  }

  /** The step of SplitAppend: the pieces of c + s + x from those of s and
      s + x. */
  lemma SplitConsAppend(c: char, t: seq<string>, t': seq<string>, x: char, sep: char)
    requires |t| >= 1 && t' == t[..|t| - 1] + [t[|t| - 1] + [x]]
    ensures var r := if c == sep then [[]] + t else [[c] + t[0]] + t[1..];
            var r' := if c == sep then [[]] + t' else [[c] + t'[0]] + t'[1..];
            r' == r[..|r| - 1] + [r[|r| - 1] + [x]]
  {
    if c != sep && |t| == 1 {
      assert [c] + t'[0] == [c] + t[0] + [x];
    }
  }

  /** Rewrites every line feed as carriage return + line feed (LF text to
      CRLF text). */
  function ToCrlf(s: string): (r: string)
    ensures |r| >= |s|
  {
    if s == [] then []
    else (if s[0] == '\n' then "\r\n" else [s[0]]) + ToCrlf(s[1..])
  }

  lemma {:induction false} ToCrlfAppend(a: string, b: string)
    ensures ToCrlf(a + b) == ToCrlf(a) + ToCrlf(b)
    decreases |a|
  {
    if a != [] {
      assert (a + b)[1..] == a[1..] + b;
      ToCrlfAppend(a[1..], b);
    } else {
      assert a + b == b;
    }
  }

  /** CRLF lines: every piece but the last gains a trailing carriage return. */
  function WithCarriageReturns(pieces: seq<string>): (r: seq<string>)
    ensures |r| == |pieces|
  {
    seq(|pieces|, i requires 0 <= i < |pieces| =>
      if i < |pieces| - 1 then pieces[i] + "\r" else pieces[i])
  }

  /** Splitting CRLF text on line feeds gives the LF lines, each but the last
      followed by its carriage return. */
  lemma {:induction false} SplitLinesOfCrlf(s: string)
    ensures Split(ToCrlf(s), '\n') == WithCarriageReturns(Split(s, '\n'))
    decreases |s|
  {
    if s != [] {
      SplitLinesOfCrlf(s[1..]);
      if s[0] == '\n' {
        SplitCrlfLineFeed(s);
      } else {
        SplitCrlfOther(s);
      }
    }
  }

  lemma SplitCrlfLineFeed(s: string)
    requires s != [] && s[0] == '\n'
    requires Split(ToCrlf(s[1..]), '\n') == WithCarriageReturns(Split(s[1..], '\n'))
    ensures Split(ToCrlf(s), '\n') == WithCarriageReturns(Split(s, '\n'))
  {
    var u := Split(s[1..], '\n');
    var t := Split(ToCrlf(s[1..]), '\n');
    var c := ToCrlf(s);
    assert Split(c, '\n') == [['\r']] + t by {
      assert c == "\r\n" + ToCrlf(s[1..]);
      assert c[1..] == "\n" + ToCrlf(s[1..]);
      assert c[1..][1..] == ToCrlf(s[1..]);
      assert Split(c[1..], '\n') == [[]] + t;
      assert ['\r'] + [] == ['\r'];
    }
    assert Split(s, '\n') == [[]] + u;
    WithCarriageReturnsEmptyFirst(u);
  }

  lemma WithCarriageReturnsEmptyFirst(u: seq<string>)
    requires |u| >= 1
    ensures WithCarriageReturns([[]] + u) == [['\r']] + WithCarriageReturns(u)
  {
    var w := WithCarriageReturns([[]] + u);
    assert w[0] == [] + "\r";
    assert [] + "\r" == ['\r'];
  }

  lemma SplitCrlfOther(s: string)
    requires s != [] && s[0] != '\n'
    requires Split(ToCrlf(s[1..]), '\n') == WithCarriageReturns(Split(s[1..], '\n'))
    ensures Split(ToCrlf(s), '\n') == WithCarriageReturns(Split(s, '\n'))
  {
    var u := Split(s[1..], '\n');
    var t := Split(ToCrlf(s[1..]), '\n');
    var c := ToCrlf(s);
    assert Split(c, '\n') == [[s[0]] + t[0]] + t[1..] by {
      assert c == [s[0]] + ToCrlf(s[1..]);
      assert c[1..] == ToCrlf(s[1..]);
    }
    assert Split(s, '\n') == [[s[0]] + u[0]] + u[1..];
    WithCarriageReturnsExtendFirst(s[0], u);
  }

  lemma WithCarriageReturnsExtendFirst(x: char, u: seq<string>)
    requires |u| >= 1
    ensures var t := WithCarriageReturns(u);
            WithCarriageReturns([[x] + u[0]] + u[1..]) == [[x] + t[0]] + t[1..]
  {
    var t := WithCarriageReturns(u);
    var v := [[x] + u[0]] + u[1..];
    var w, e := WithCarriageReturns(v), [[x] + t[0]] + t[1..];
    forall i | 0 <= i < |u|
      ensures w[i] == e[i]
    {
      if i > 0 {
        assert v[i] == u[i] && e[i] == t[i];
      } else if |u| > 1 {
        assert [x] + u[0] + "\r" == [x] + (u[0] + "\r");
      }
    }
    assert w == e;
  }

  lemma TrimStartSkipsOne(c: char, rest: string)
    requires IsWhitespace(c)
    ensures TrimStart([c] + rest) == TrimStart(rest)
  {
    assert ([c] + rest)[1..] == rest;
  }

  lemma {:induction false} TrimStartOfCrlf(s: string)
    ensures TrimStart(ToCrlf(s)) == ToCrlf(TrimStart(s))
    decreases |s|
  {
    if s != [] {
      var rest := ToCrlf(s[1..]);
      if IsWhitespace(s[0]) {
        TrimStartOfCrlf(s[1..]);
        assert TrimStart(s) == TrimStart(s[1..]);
        if s[0] == '\n' {
          assert ToCrlf(s) == ['\r'] + (['\n'] + rest);
          TrimStartSkipsOne('\r', ['\n'] + rest);
          TrimStartSkipsOne('\n', rest);
        } else {
          assert ToCrlf(s) == [s[0]] + rest;
          TrimStartSkipsOne(s[0], rest);
        }
      } else {
        assert ToCrlf(s) == [s[0]] + rest;
        TrimStartKeeps(ToCrlf(s));
      }
    }
  }

  lemma {:induction false} TrimEndOfCrlf(s: string)
    ensures TrimEnd(ToCrlf(s)) == ToCrlf(TrimEnd(s))
    decreases |s|
  {
    if s != [] {
      var q, x := s[..|s| - 1], s[|s| - 1];
      assert s == q + [x];
      ToCrlfAppend(q, [x]);
      assert ToCrlf([x]) == (if x == '\n' then "\r\n" else [x]) + ToCrlf([]);
      if IsWhitespace(x) {
        TrimEndOfCrlf(q);
        TrimEndAppendWhitespace(ToCrlf(q), ToCrlf([x]));
      } else {
        assert ToCrlf(s) == ToCrlf(q) + [x];
      }
    }
  }

  lemma {:induction false} TrimEndAppendWhitespace(s: string, post: string)
    requires AllWhitespace(post)
    ensures TrimEnd(s + post) == TrimEnd(s)
  {
    var r := TrimEnd(s);
    TrimEndDrops(s);
    assert s == r + s[|r|..];
    assert s + post == r + (s[|r|..] + post);
    TrimEndSkips(r, s[|r|..] + post);
  }

  /** Trimming commutes with the LF-to-CRLF rewrite: the whitespace margins
      only gain carriage returns, which are whitespace too. */
  lemma TrimOfCrlf(s: string)
    ensures Trim(ToCrlf(s)) == ToCrlf(Trim(s))
  {
    TrimStartOfCrlf(s);
    TrimEndOfCrlf(TrimStart(s));
  }
}
