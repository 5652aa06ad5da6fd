/**
 * The few Python `str` operations the application relies on: `strip()`,
 * `startswith("{")`, `c in s` and `split(sep, 1)`, together with the
 * truthiness test `if text:` applied to an optional string.
 *
 * The functions carry (almost) no postconditions; what they compute is
 * stated by the `...Spec` lemmas below, which proofs call where they need them.
 */
module PyStrings {
  import opened Wrappers

  /** `c.isspace()`: exactly the characters `str.strip()` with no argument removes. */
  predicate IsSpace(c: char) {
    || c == ' '
    || ('\t' <= c <= '\r')
    || ('\U{1c}' <= c <= '\U{1f}')
    || c == '\U{85}' || c == '\U{a0}' || c == '\U{1680}'
    || ('\U{2000}' <= c <= '\U{200a}')
    || c == '\U{2028}' || c == '\U{2029}' || c == '\U{202f}'
    || c == '\U{205f}' || c == '\U{3000}'
  }

  predicate AllSpace(s: string) {
    forall k :: 0 <= k < |s| ==> IsSpace(s[k])
  }

  /** `s.lstrip()` */
  function TrimLeft(s: string): string {
    if |s| > 0 && IsSpace(s[0]) then TrimLeft(s[1..]) else s
  }

  /** `s.rstrip()` */
  function TrimRight(s: string): string {
    if |s| > 0 && IsSpace(s[|s| - 1]) then TrimRight(s[..|s| - 1]) else s
  }

  /** `s.strip()` */
  function Strip(s: string): string {
    TrimRight(TrimLeft(s))
  }

  /** `s.startswith("{")` */
  predicate StartsWithBrace(s: string) {
    |s| > 0 && s[0] == '{'
  }

  /** Python's truthiness of a value that is either `None` or a string: `""` is falsy. */
  predicate Truthy(o: Option<string>) {
    o.Some? && o.value != ""
  }

  /** The index of the first occurrence of `c` in `s`, as `s.find(c)` with -1 as `None`. */
  function Find(s: string, c: char): (r: Option<nat>)
    ensures r.Some? ==> r.value < |s|
  {
    if |s| == 0 then None
    else if s[0] == c then Some(0)
    else
      match Find(s[1..], c)
      case None => None
      case Some(i) => Some(i + 1)
  }

  /**
   * `s.split(sep, 1)`: one piece when `sep` does not occur, otherwise the
   * text before the first `sep` and the text after it.
   */
  function SplitFirst(s: string, sep: char): seq<string> {
    match Find(s, sep)
    case None => [s]
    case Some(i) => [s[..i], s[i + 1..]]
  }

  /** `lstrip()` leaves a suffix that starts with a non-space; all it removes is whitespace. */
  lemma {:induction false} TrimLeftSpec(s: string)
    ensures |TrimLeft(s)| <= |s| && TrimLeft(s) == s[|s| - |TrimLeft(s)|..]
    ensures AllSpace(s[..|s| - |TrimLeft(s)|])
    ensures TrimLeft(s) != [] ==> !IsSpace(TrimLeft(s)[0])
  {
    if |s| > 0 && IsSpace(s[0]) {
      TrimLeftSpec(s[1..]);
      var r := TrimLeft(s[1..]);
      assert s[..|s| - |r|] == [s[0]] + s[1..][..|s[1..]| - |r|];
    }
  }

  /**
   * `rstrip()` leaves a prefix that ends with a non-space; all it removes is
   * whitespace; a text that starts with a non-space is never emptied.
   */
  lemma {:induction false} TrimRightSpec(s: string)
    ensures |TrimRight(s)| <= |s| && TrimRight(s) == s[..|TrimRight(s)|]
    ensures AllSpace(s[|TrimRight(s)|..])
    ensures TrimRight(s) != [] ==> !IsSpace(TrimRight(s)[|TrimRight(s)| - 1])
    ensures |s| > 0 && !IsSpace(s[0]) ==> |TrimRight(s)| > 0
  {
    if |s| > 0 && IsSpace(s[|s| - 1]) {
      TrimRightSpec(s[..|s| - 1]);
      var r := TrimRight(s[..|s| - 1]);
      assert s[|r|..] == s[..|s| - 1][|r|..] + [s[|s| - 1]];
    }
  }

  /**
   * `strip()` removes a run of whitespace at the front and a run at the back
   * and keeps the text between them as it was; what is kept has no
   * whitespace at either end.
   */
  lemma StripSpec(s: string)
    ensures |TrimLeft(s)| <= |s| && |Strip(s)| <= |TrimLeft(s)|
    ensures var a := |s| - |TrimLeft(s)|;
            && AllSpace(s[..a])
            && Strip(s) == s[a..a + |Strip(s)|]
            && AllSpace(s[a + |Strip(s)|..])
    ensures Strip(s) != [] ==> !IsSpace(Strip(s)[0]) && !IsSpace(Strip(s)[|Strip(s)| - 1])
  {
    TrimLeftSpec(s);
    var l := TrimLeft(s);
    TrimRightSpec(l);
    var r := TrimRight(l);
    var a := |s| - |l|;
    assert l == s[a..];
    assert r == l[..|r|] == s[a..a + |r|];
    assert l[|r|..] == s[a + |r|..];
  }

  /** `find` returns the first occurrence, and nothing exactly when there is none. */
  lemma {:induction false} FindSpec(s: string, c: char)
    ensures Find(s, c).None? <==> c !in s
    ensures Find(s, c).Some? ==> Find(s, c).value < |s| && s[Find(s, c).value] == c && c !in s[..Find(s, c).value]
  {
    if |s| > 0 && s[0] != c {
      FindSpec(s[1..], c);
      if Find(s[1..], c).Some? {
        var i := Find(s[1..], c).value;
        assert s[..i + 1] == [s[0]] + s[1..][..i];
      } else {
        assert s == [s[0]] + s[1..];
      }
    }
  }

  /**
   * `split(sep, 1)` gives one piece, the whole text, exactly when `sep` does
   * not occur; otherwise two pieces around the first `sep`.
   */
  lemma SplitFirstSpec(s: string, sep: char)
    ensures |SplitFirst(s, sep)| == 1 || |SplitFirst(s, sep)| == 2
    ensures |SplitFirst(s, sep)| == 1 <==> sep !in s
    ensures |SplitFirst(s, sep)| == 1 ==> SplitFirst(s, sep)[0] == s
    ensures |SplitFirst(s, sep)| == 2 ==>
              SplitFirst(s, sep)[0] + [sep] + SplitFirst(s, sep)[1] == s && sep !in SplitFirst(s, sep)[0]
  {
    FindSpec(s, sep);
    if Find(s, sep).Some? {
      var i := Find(s, sep).value;
      assert s[..i] + [sep] + s[i + 1..] == s;
    }
  }

  /** The first piece of `split(sep, 1)` with `sep` put back is the text up to and including the first `sep`. */
  lemma SplitFirstHead(s: string, sep: char)
    requires sep in s
    ensures Find(s, sep).Some?
    ensures SplitFirst(s, sep)[0] + [sep] == s[..Find(s, sep).value + 1]
  {
    FindSpec(s, sep);
  }

  /**
   * The two pieces of `split(sep, 1)` are determined: any way of writing `s`
   * as `head + [sep] + tail` with no `sep` in `head` is the one it returns.
   */
  lemma SplitFirstUnique(s: string, sep: char, head: string, tail: string)
    requires s == head + [sep] + tail && sep !in head
    ensures SplitFirst(s, sep) == [head, tail]
  {
    assert s[|head|] == sep;
    FindSpec(s, sep);
    var i := Find(s, sep).value;
    assert forall k :: 0 <= k < |head| ==> s[k] == head[k];
    assert i == |head|;
    assert s[..i] == head && s[i + 1..] == tail;
  }

  /** Leading whitespace does not change `lstrip()`. */
  lemma {:induction false} TrimLeftSkipsSpace(ws: string, s: string)
    requires AllSpace(ws)
    ensures TrimLeft(ws + s) == TrimLeft(s)
  {
    if ws != [] {
      assert (ws + s)[0] == ws[0] && IsSpace(ws[0]);
      assert (ws + s)[1..] == ws[1..] + s;
      TrimLeftSkipsSpace(ws[1..], s);
    } else {
      assert ws + s == s;
    }
  }

  /** Trailing whitespace is only removed from the part after a non-space character. */
  lemma {:induction false} TrimRightAfterNonSpace(x: string, y: string)
    requires x != [] && !IsSpace(x[|x| - 1])
    ensures TrimRight(x + y) == x + TrimRight(y)
    decreases |y|
  {
    if y == [] {
      assert x + y == x;
    } else {
      var xy := x + y;
      assert xy[|xy| - 1] == y[|y| - 1];
      if IsSpace(y[|y| - 1]) {
        assert xy[..|xy| - 1] == x + y[..|y| - 1];
        TrimRightAfterNonSpace(x, y[..|y| - 1]);
      }
    }
  }

  /** A text whose first non-space character is `{` strips to one starting with `{`. */
  lemma StripKeepsLeadingBrace(ws: string, rest: string)
    requires AllSpace(ws)
    ensures StartsWithBrace(Strip(ws + ['{'] + rest))
  {
    assert ws + ['{'] + rest == ws + (['{'] + rest);
    TrimLeftSkipsSpace(ws, ['{'] + rest);
    TrimRightSpec(['{'] + rest);
  }

  /**
   * If `s.strip()` starts with `{`, then `{` is the first non-space character
   * of `s`: the converse of `StripKeepsLeadingBrace`.
   */
  lemma StripBraceIsFirstNonSpace(s: string)
    requires StartsWithBrace(Strip(s))
    ensures 0 < |TrimLeft(s)| <= |s|
    ensures var a := |s| - |TrimLeft(s)|; AllSpace(s[..a]) && s[a] == '{'
  {
    TrimLeftSpec(s);
    TrimRightSpec(TrimLeft(s));
  }
}
