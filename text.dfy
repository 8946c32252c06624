/**
 * The JavaScript string operations the scraper applies to scraped text:
 * `String.prototype.trim`, `split` on a one-character separator, and the
 * query-fragment idiom `href.split('?')[1] || ''`.
 */
module Text {

  /**
   * The characters `trim` removes: ECMAScript WhiteSpace (TAB, VT, FF,
   * ZWNBSP and the space separators of category Zs) and LineTerminator
   * (LF, CR, LS, PS).
   */
  predicate IsSpace(c: char) {
    c == '\t' || c == '\n' || c == '\U{000B}' || c == '\U{000C}' || c == '\r' ||
    c == ' ' || c == '\U{00A0}' || c == '\U{1680}' ||
    ('\U{2000}' <= c <= '\U{200A}') ||
    c == '\U{2028}' || c == '\U{2029}' || c == '\U{202F}' || c == '\U{205F}' ||
    c == '\U{3000}' || c == '\U{FEFF}'
  }

  /** Drops leading white space. */
  function TrimStart(s: string): string
    decreases |s|
  {
    if s != [] && IsSpace(s[0]) then TrimStart(s[1..]) else s
  }

  /** Drops trailing white space. */
  function TrimEnd(s: string): string
    decreases |s|
  {
    if s != [] && IsSpace(s[|s| - 1]) then TrimEnd(s[..|s| - 1]) else s
  }

  /** What `TrimStart` leaves is a suffix starting with a non-space, after only spaces. */
  lemma {:induction false} TrimStartSuffix(s: string)
    ensures var r := TrimStart(s);
            |r| <= |s| && r == s[|s| - |r|..] && (r == [] || !IsSpace(r[0])) &&
            forall k :: 0 <= k < |s| - |r| ==> IsSpace(s[k])
    decreases |s|
  {
    if s != [] && IsSpace(s[0]) {
      TrimStartSuffix(s[1..]);
      var r := TrimStart(s);
      assert forall k :: 1 <= k < |s| - |r| ==> s[k] == s[1..][k - 1];
    }
  }

  /** What `TrimEnd` leaves is a prefix ending with a non-space, before only spaces. */
  lemma {:induction false} TrimEndPrefix(s: string)
    ensures var r := TrimEnd(s);
            |r| <= |s| && r == s[..|r|] && (r == [] || !IsSpace(r[|r| - 1])) &&
            forall k :: |r| <= k < |s| ==> IsSpace(s[k])
    decreases |s|
  {
    if s != [] && IsSpace(s[|s| - 1]) {
      TrimEndPrefix(s[..|s| - 1]);
      var r := TrimEnd(s);
      assert forall k :: |r| <= k < |s| - 1 ==> s[k] == s[..|s| - 1][k];
    }
  }

  /** `s.trim()`: white space removed at both ends. */
  function Trim(s: string): string {
    TrimEnd(TrimStart(s))
  }

  /**
   * What `trim` leaves: the infix of `s` that starts after the leading white
   * space and ends before the trailing white space, and neither starts nor
   * ends with white space itself.
   */
  lemma TrimInfix(s: string)
    ensures var r := Trim(s); var start := |s| - |TrimStart(s)|;
            0 <= start && start + |r| <= |s| && r == s[start..start + |r|] &&
            (r == [] || (!IsSpace(r[0]) && !IsSpace(r[|r| - 1]))) &&
            (forall k :: 0 <= k < start ==> IsSpace(s[k])) &&
            (forall k :: start + |r| <= k < |s| ==> IsSpace(s[k]))
  {
    var t := TrimStart(s);
    var r := TrimEnd(t);
    var start := |s| - |t|;
    TrimStartSuffix(s);
    TrimEndPrefix(t);
    assert t == s[start..];
    assert r == t[..|r|];
    if r != [] {
      assert r[0] == t[0];
      assert !IsSpace(t[0]);
    }
    forall k | start + |r| <= k < |s|
      ensures IsSpace(s[k])
    {
      assert s[k] == t[k - start];
    }
  }

  /** A string that neither starts nor ends with white space is its own trim. */
  lemma TrimUnchanged(s: string)
    requires s == [] || (!IsSpace(s[0]) && !IsSpace(s[|s| - 1]))
    ensures Trim(s) == s
  {
    assert TrimStart(s) == s;
    assert TrimEnd(s) == s;
  }

  /** Trimming twice is trimming once: every label the scraper keeps is already trimmed. */
  lemma TrimIdempotent(s: string)
    ensures Trim(Trim(s)) == Trim(s)
  {
    TrimInfix(s);
    TrimUnchanged(Trim(s));
  }

  /** The largest character a single UTF-16 code unit holds. */
  const MaxBmp: char := '\U{FFFF}'

  /**
   * `s.length`: the number of UTF-16 code units, where a character above
   * U+FFFF takes a surrogate pair.
   */
  function Utf16Length(s: string): nat
    decreases |s|
  {
    if s == [] then 0 else (if s[0] <= MaxBmp then 1 else 2) + Utf16Length(s[1..])
  }

  /** The code-unit length of a concatenation is the sum of the parts' lengths. */
  lemma {:induction false} Utf16LengthAppend(a: string, b: string)
    ensures Utf16Length(a + b) == Utf16Length(a) + Utf16Length(b)
    decreases |a|
  {
    if a != [] {
      Utf16LengthAppend(a[1..], b);
      assert (a + b)[1..] == a[1..] + b;
    } else {
      assert a + b == b;
    }
  }

  /**
   * Each character takes one or two code units, and the code-unit length
   * equals the number of characters exactly when none lies above U+FFFF;
   * in particular only the empty string has length 0.
   */
  lemma {:induction false} Utf16LengthBounds(s: string)
    ensures |s| <= Utf16Length(s) <= 2 * |s|
    ensures Utf16Length(s) == |s| <==> forall k :: 0 <= k < |s| ==> s[k] <= MaxBmp
    decreases |s|
  {
    if s != [] {
      Utf16LengthBounds(s[1..]);
      assert forall k :: 1 <= k < |s| ==> s[k] == s[1..][k - 1];
    }
  }

  /** `s.split(sep)` for a one-character separator: the pieces between separators. */
  function Split(s: string, sep: char): (parts: seq<string>)
    ensures |parts| >= 1
    decreases |s|
  {
    if s == [] then [""]
    else
      var rest := Split(s[1..], sep);
      if s[0] == sep then [""] + rest
      else [[s[0]] + rest[0]] + rest[1..]
  }

  /** `parts.join(sep)`: the inverse of `Split`. */
  function Join(parts: seq<string>, sep: char): string
    requires |parts| >= 1
    decreases |parts|
  {
    if |parts| == 1 then parts[0] else parts[0] + [sep] + Join(parts[1..], sep)
  }

  /** Joining the pieces of a split gives back the original string. */
  lemma {:induction false} JoinSplit(s: string, sep: char)
    ensures Join(Split(s, sep), sep) == s
    decreases |s|
  {
    if s != [] {
      var rest := Split(s[1..], sep);
      JoinSplit(s[1..], sep);
      if s[0] == sep {
        assert Split(s, sep)[1..] == rest;
      } else if |rest| == 1 {
        assert Join(Split(s, sep), sep) == [s[0]] + rest[0];
      } else {
        assert Split(s, sep)[1..] == rest[1..];
        assert Join(rest, sep) == rest[0] + [sep] + Join(rest[1..], sep);
        assert Join(Split(s, sep), sep) == [s[0]] + rest[0] + [sep] + Join(rest[1..], sep);
      }
    }
  }

  /** No piece of a split contains the separator. */
  lemma {:induction false} SplitPiecesFree(s: string, sep: char)
    ensures forall p :: p in Split(s, sep) ==> sep !in p
    decreases |s|
  {
    if s != [] {
      SplitPiecesFree(s[1..], sep);
      var rest := Split(s[1..], sep);
      if s[0] != sep {
        assert sep !in rest[0];
        assert forall p :: p in rest[1..] ==> p in rest;
      }
    }
  }

  /** The first piece of a split is the longest separator-free prefix. */
  lemma {:induction false} SplitHead(s: string, sep: char)
    ensures var p := Split(s, sep)[0];
            |p| <= |s| && p == s[..|p|] && sep !in p && (|p| == |s| || s[|p|] == sep)
    decreases |s|
  {
    if s != [] && s[0] != sep {
      SplitHead(s[1..], sep);
    }
  }

  /** After the first separator, the remaining pieces are the split of the rest. */
  lemma {:induction false} SplitTail(s: string, sep: char)
    requires |Split(s, sep)[0]| < |s|
    ensures |Split(s, sep)| >= 2
    ensures Split(s, sep)[1..] == Split(s[|Split(s, sep)[0]| + 1..], sep)
    decreases |s|
  {
    var rest := Split(s[1..], sep);
    if s[0] != sep {
      SplitTail(s[1..], sep);
      assert s[1..][|rest[0]| + 1..] == s[|rest[0]| + 2..];
    }
  }

  /** `href.split('?')[1] || ''`: index 1 of the split, or `''` when there is none. */
  function QueryFragment(href: string): string {
    var parts := Split(href, '?');
    if |parts| > 1 then parts[1] else ""
  }

  /** A string without the separator splits into itself alone. */
  lemma {:induction false} SplitWithoutSeparator(s: string, sep: char)
    requires sep !in s
    ensures Split(s, sep) == [s]
    decreases |s|
  {
    if s != [] {
      SplitWithoutSeparator(s[1..], sep);
      assert [s[0]] + s[1..] == s;
    }
  }

  /** Without a `?`, the query fragment is empty. */
  lemma QueryFragmentWithoutMark(href: string)
    requires '?' !in href
    ensures QueryFragment(href) == ""
  {
    SplitWithoutSeparator(href, '?');
  }

  /**
   * With the first `?` at index `i`, the query fragment is the text strictly
   * between it and the next `?` (or the end of `href`), and holds no `?`.
   */
  lemma QueryFragmentBetween(href: string, i: nat)
    requires i < |href| && href[i] == '?' && '?' !in href[..i]
    ensures var q := QueryFragment(href);
            i + 1 + |q| <= |href| && q == href[i + 1..i + 1 + |q|] && '?' !in q &&
            (i + 1 + |q| == |href| || href[i + 1 + |q|] == '?')
  {
    SplitHead(href, '?');
    var p := Split(href, '?')[0];
    assert forall k :: 0 <= k < i ==> href[k] == href[..i][k];
    assert forall k :: 0 <= k < |p| ==> href[k] == p[k];
    assert |p| == i;
    SplitTail(href, '?');
    var rest := href[i + 1..];
    assert Split(href, '?')[1] == Split(rest, '?')[0];
    SplitHead(rest, '?');
  }

  /** A query fragment never contains a `?`. */
  lemma QueryFragmentFree(href: string)
    ensures '?' !in QueryFragment(href)
  {
    SplitPiecesFree(href, '?');
  }
}
