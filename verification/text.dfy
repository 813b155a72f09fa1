/** The JavaScript string primitives the services rely on, over `seq<char>`:
    `toLowerCase` on a fixed alphabet, `split(' ')`, `split(/\s+/)`, `trim`,
    `includes`, `join(' ')`, and the character classes `\s` and `\w`. */
module Text {

  /** ECMAScript WhiteSpace and LineTerminator code points: the class `\s`
      and the set `String.prototype.trim` strips. */
  predicate IsWhitespace(c: char) {
    || c == '\t' || c == '\n' || c == '\U{B}' || c == '\U{C}' || c == '\r' || c == ' '
    || c == '\U{A0}' || c == '\U{1680}' || ('\U{2000}' <= c <= '\U{200A}')
    || c == '\U{2028}' || c == '\U{2029}' || c == '\U{202F}' || c == '\U{205F}'
    || c == '\U{3000}' || c == '\U{FEFF}'
  }

  /** `\w` without the `u` flag: ASCII letters, digits and underscore. */
  predicate IsWordChar(c: char) {
    ('a' <= c <= 'z') || ('A' <= c <= 'Z') || ('0' <= c <= '9') || c == '_'
  }

  /** The upper-case letters the model lower-cases: ASCII and the German umlauts. */
  predicate IsUpper(c: char) {
    ('A' <= c <= 'Z') || c == 'Ä' || c == 'Ö' || c == 'Ü'
  }

  /** One character of `toLowerCase`: an ASCII capital becomes the letter
      at the same place of the lower-case alphabet, and each umlaut its
      small form. */
  function LowerChar(c: char): (r: char)
    ensures 'A' <= c <= 'Z' ==> 'a' <= r <= 'z' && r as int - 'a' as int == c as int - 'A' as int
    ensures c == 'Ä' ==> r == 'ä'
    ensures c == 'Ö' ==> r == 'ö'
    ensures c == 'Ü' ==> r == 'ü'
    ensures !IsUpper(r)
    ensures !IsUpper(c) ==> r == c
    ensures IsWordChar(c) <==> IsWordChar(r)
  {
    if 'A' <= c <= 'Z' then (c as int + 32) as char
    else if c == 'Ä' then 'ä'
    else if c == 'Ö' then 'ö'
    else if c == 'Ü' then 'ü'
    else c
  }

  /** `String.prototype.toLowerCase`, restricted to the alphabet of `IsUpper`. */
  function ToLower(s: string): (r: string)
    ensures |r| == |s|
    ensures forall i :: 0 <= i < |s| ==> r[i] == LowerChar(s[i])
  {
    seq(|s|, i requires 0 <= i < |s| => LowerChar(s[i]))
  }

  /** The whole modelled alphabet, capital by capital. */
  lemma ToLowerAlphabet()
    ensures ToLower("ABCDEFGHIJKLMNOPQRSTUVWXYZÄÖÜ") == "abcdefghijklmnopqrstuvwxyzäöü"
  {
  }

  lemma ToLowerHasNoUpper(s: string)
    ensures forall c :: c in ToLower(s) ==> !IsUpper(c)
  {
  }

  /** Lower-casing neither adds nor removes whitespace. */
  lemma ToLowerKeepsWhitespace(s: string)
    ensures forall i :: 0 <= i < |s| ==> (IsWhitespace(ToLower(s)[i]) <==> IsWhitespace(s[i]))
  {
  }

  /** Number of occurrences of `c` in `s`. */
  function Occurrences(s: string, c: char): nat {
    if s == [] then 0 else (if s[0] == c then 1 else 0) + Occurrences(s[1..], c)
  }

  /** `parts.join([sep])`. */
  function Join(parts: seq<string>, sep: char): string
    decreases |parts|
  {
    if |parts| == 0 then ""
    else if |parts| == 1 then parts[0]
    else parts[0] + [sep] + Join(parts[1..], sep)
  }

  /** `s.split(sep)` for a one-character separator: every separator ends a
      piece, so adjacent separators produce empty pieces and `""` splits into
      `[""]`. */
  function Split(s: string, sep: char): (r: seq<string>)
    ensures |r| == Occurrences(s, sep) + 1
    ensures forall i :: 0 <= i < |r| ==> sep !in r[i]
    ensures Join(r, sep) == s
    decreases |s|
  {
    if s == [] then [""]
    else
      var rest := Split(s[1..], sep);
      assert s == [s[0]] + s[1..];
      if s[0] == sep then
        [""] + rest
      else
        [[s[0]] + rest[0]] + rest[1..]
  }

  lemma {:induction false} JoinAppend(a: seq<string>, b: seq<string>, sep: char)
    requires |a| > 0 && |b| > 0
    ensures Join(a + b, sep) == Join(a, sep) + [sep] + Join(b, sep)
    decreases |a|
  {
    if |a| == 1 {
      assert (a + b)[1..] == b;
    } else {
      assert (a + b)[1..] == a[1..] + b;
      JoinAppend(a[1..], b, sep);
    }
  }

  lemma {:induction false} SplitSeparatorFree(p: string, sep: char)
    requires sep !in p
    ensures Split(p, sep) == [p]
    decreases |p|
  {
    if p != [] {
      SplitSeparatorFree(p[1..], sep);
    }
  }

  lemma {:induction false} SplitAfterPiece(p: string, t: string, sep: char)
    requires sep !in p
    ensures Split(p + [sep] + t, sep) == [p] + Split(t, sep)
    decreases |p|
  {
    var s := p + [sep] + t;
    if p == [] {
      assert s[1..] == t;
    } else {
      assert s[1..] == p[1..] + [sep] + t;
      SplitAfterPiece(p[1..], t, sep);
      assert [p[0]] + p[1..] == p;
    }
  }

  /** `split` undoes `join`: separator-free pieces are recovered exactly. */
  lemma {:induction false} SplitJoin(parts: seq<string>, sep: char)
    requires |parts| > 0
    requires forall i :: 0 <= i < |parts| ==> sep !in parts[i]
    ensures Split(Join(parts, sep), sep) == parts
    decreases |parts|
  {
    if |parts| == 1 {
      SplitSeparatorFree(parts[0], sep);
    } else {
      SplitJoin(parts[1..], sep);
      SplitAfterPiece(parts[0], Join(parts[1..], sep), sep);
    }
  }

  /** `s.split(/\s+/)`: every maximal run of whitespace ends a piece, so there
      are empty pieces only at the two ends (a leading or trailing run), and
      `""` splits into `[""]`. */
  function SplitWhitespace(s: string): (r: seq<string>)
    ensures |r| > 0
    ensures forall i, c :: 0 <= i < |r| && c in r[i] ==> !IsWhitespace(c) && c in s
    ensures forall i :: 0 < i < |r| - 1 ==> r[i] != ""
    ensures |s| > 0 && !IsWhitespace(s[0]) ==> r[0] != ""
    decreases |s|
  {
    if s == [] then [""]
    else
      var rest := SplitWhitespace(s[1..]);
      assert s == [s[0]] + s[1..];
      if IsWhitespace(s[0]) then
        if |s| > 1 && IsWhitespace(s[1]) then rest else [""] + rest
      else
        [[s[0]] + rest[0]] + rest[1..]
  }

  /** Each maximal whitespace run replaced by a single space. */
  function CollapseWhitespace(s: string): string
    decreases |s|
  {
    if s == [] then ""
    else if IsWhitespace(s[0]) then
      if |s| > 1 && IsWhitespace(s[1]) then CollapseWhitespace(s[1..])
      else [' '] + CollapseWhitespace(s[1..])
    else [s[0]] + CollapseWhitespace(s[1..])
  }

  /** Splitting on whitespace runs is splitting on single spaces after
      collapsing every run to one space. */
  lemma {:induction false} SplitWhitespaceIsSplitOfCollapsed(s: string)
    ensures SplitWhitespace(s) == Split(CollapseWhitespace(s), ' ')
    decreases |s|
  {
    if s != [] {
      SplitWhitespaceIsSplitOfCollapsed(s[1..]);
      var c := CollapseWhitespace(s[1..]);
      if IsWhitespace(s[0]) {
        if !(|s| > 1 && IsWhitespace(s[1])) {
          assert ([' '] + c)[1..] == c;
        }
      } else {
        assert ([s[0]] + c)[1..] == c;
      }
    }
  }

  /** `String.prototype.trimStart`. */
  function TrimStart(s: string): (r: string)
    ensures |r| <= |s| && r == s[|s| - |r|..]
    ensures r == [] || !IsWhitespace(r[0])
    ensures |r| == 0 <==> forall i :: 0 <= i < |s| ==> IsWhitespace(s[i])
    decreases |s|
  {
    if s != [] && IsWhitespace(s[0]) then TrimStart(s[1..]) else s
  }

  /** `String.prototype.trimEnd`. */
  function TrimEnd(s: string): (r: string)
    ensures r <= s
    ensures r == [] || !IsWhitespace(r[|r| - 1])
    ensures |r| == 0 <==> forall i :: 0 <= i < |s| ==> IsWhitespace(s[i])
    decreases |s|
  {
    if s != [] && IsWhitespace(s[|s| - 1]) then TrimEnd(s[..|s| - 1]) else s
  }

  /** `String.prototype.trim`. */
  function Trim(s: string): (r: string)
    ensures r == [] || (!IsWhitespace(r[0]) && !IsWhitespace(r[|r| - 1]))
    ensures |r| == 0 <==> forall i :: 0 <= i < |s| ==> IsWhitespace(s[i])
  {
    TrimEnd(TrimStart(s))
  }

  /** `h.includes(n)`, computed by trying every start position. */
  predicate Includes(h: string, n: string)
    decreases |h|
  {
    n <= h || (|h| > 0 && Includes(h[1..], n))
  }

  /** `n` occurs in `h` starting at position `i`. */
  predicate OccursAt(h: string, n: string, i: int) {
    0 <= i && i + |n| <= |h| && h[i..i + |n|] == n
  }

  /** `Includes` holds exactly when `n` occurs as a contiguous block of `h`. */
  lemma {:induction false} IncludesIff(h: string, n: string)
    ensures Includes(h, n) <==> exists i :: OccursAt(h, n, i)
    decreases |h|
  {
    if n <= h {
      assert OccursAt(h, n, 0);
    } else if |h| == 0 {
    } else {
      IncludesIff(h[1..], n);
      if exists i :: OccursAt(h, n, i) {
        var i :| OccursAt(h, n, i);
        assert i != 0;
        assert OccursAt(h[1..], n, i - 1);
      }
      if Includes(h[1..], n) {
        var i :| OccursAt(h[1..], n, i);
        assert OccursAt(h, n, i + 1);
      }
    }
  }

  /** A string with a character that `h` lacks is not included in `h`. */
  lemma {:induction false} MissingCharExcludes(h: string, n: string, c: char)
    requires c in n && c !in h
    ensures !Includes(h, n)
    decreases |h|
  {
    if |h| > 0 {
      assert h == [h[0]] + h[1..];
      MissingCharExcludes(h[1..], n, c);
    }
  }
}
