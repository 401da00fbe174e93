/** The few JavaScript string primitives the controllers rely on: truthiness,
    `String.prototype.trim`, `toLowerCase`, an unanchored regular-expression
    `test` against a list of alternatives, and Node's `path.extname`. */
module Js {
  import opened Wrappers

  /** Truthiness of an optional string: `undefined`, `null` and "" are falsy. */
  predicate Truthy(s: Option<string>) {
    s.Some? && s.value != ""
  }

  /** Truthiness of an optional id: `undefined`, `null` and 0 are falsy. */
  predicate TruthyNat(n: Option<nat>) {
    n.Some? && n.value != 0
  }

  /** `a || b` on optional strings. */
  function OrElse(a: Option<string>, b: Option<string>): Option<string> {
    if Truthy(a) then a else b
  }

  /** `String.prototype.length`: the number of UTF-16 code units, so a
      character outside the Basic Multilingual Plane counts twice. */
  function Utf16Length(s: string): (n: nat)
    ensures |s| <= n <= 2 * |s|
    ensures n == |s| <==> forall i :: 0 <= i < |s| ==> s[i] as int <= 0xFFFF
  {
    if s == [] then 0
    else (if s[0] as int <= 0xFFFF then 1 else 2) + Utf16Length(s[1..])
  }

  /** Three emoji have length 6 in JavaScript, not 3. */
  lemma Utf16LengthOfEmoji()
    ensures |"\U{1F600}\U{1F600}\U{1F600}"| == 3
    ensures Utf16Length("\U{1F600}\U{1F600}\U{1F600}") == 6
  {
  }

  /** The characters matched by `\s` and removed by `trim()`: ECMAScript's
      WhiteSpace and LineTerminator code points. */
  predicate IsSpace(c: char) {
    || c == '\t' || c == '\n' || c == '\U{000B}' || c == '\U{000C}' || c == '\r'
    || c == ' ' || c == '\U{00A0}' || c == '\U{1680}'
    || ('\U{2000}' <= c <= '\U{200A}')
    || c == '\U{2028}' || c == '\U{2029}' || c == '\U{202F}' || c == '\U{205F}'
    || c == '\U{3000}' || c == '\U{FEFF}'
  }

  function TrimStart(s: string): (r: string)
    ensures |r| <= |s| && r == s[|s| - |r|..]
    ensures forall i :: 0 <= i < |s| - |r| ==> IsSpace(s[i])
    ensures r == [] || !IsSpace(r[0])
  {
    if s != [] && IsSpace(s[0]) then TrimStart(s[1..]) else s
  }

  function TrimEnd(s: string): (r: string)
    ensures |r| <= |s| && r == s[..|r|]
    ensures forall i :: |r| <= i < |s| ==> IsSpace(s[i])
    ensures r == [] || !IsSpace(r[|r| - 1])
  {
    if s != [] && IsSpace(s[|s| - 1]) then TrimEnd(s[..|s| - 1]) else s
  }

  /** `s.trim()`: `s` without its leading and trailing white space. */
  function Trim(s: string): (r: string)
    ensures |r| <= |s|
    ensures r == [] || (!IsSpace(r[0]) && !IsSpace(r[|r| - 1]))
  {
    TrimEnd(TrimStart(s))
  }

  /** `trim()` yields "" exactly when every character is white space. */
  lemma {:induction false} TrimEmptyIff(s: string)
    ensures Trim(s) == [] <==> forall i :: 0 <= i < |s| ==> IsSpace(s[i])
  {
    var t := TrimStart(s);
    if Trim(s) == [] {
      // TrimEnd removes only white space, and t does not start with any
      assert TrimEnd(t) == [];
      assert |t| == 0;
    } else {
      assert t != [] && t[0] == s[|s| - |t|];
      assert !IsSpace(s[|s| - |t|]);
    }
  }

  /** Trimming twice is trimming once. */
  lemma {:induction false} TrimIdempotent(s: string)
    ensures Trim(Trim(s)) == Trim(s)
  {
    var r := Trim(s);
    assert TrimStart(r) == r;
    assert TrimEnd(r) == r;
  }

  /** A string with a non-space character keeps one after trimming. */
  lemma TrimKeepsNonSpace(s: string, i: nat)
    requires i < |s| && !IsSpace(s[i])
    ensures Trim(s) != []
  {
    TrimEmptyIff(s);
  }

  /** What is non-empty after trimming stays so with text appended. */
  lemma TrimPrefixNonEmpty(a: string, b: string)
    ensures Trim(a) != [] ==> Trim(a + b) != []
  {
    if Trim(a) != [] {
      TrimEmptyIff(a);
      var i :| 0 <= i < |a| && !IsSpace(a[i]);
      assert (a + b)[i] == a[i];
      TrimKeepsNonSpace(a + b, i);
    }
  }

  /** ASCII `toLowerCase` of one character. */
  function LowerChar(c: char): char {
    if 'A' <= c <= 'Z' then (c as int + 32) as char else c
  }

  /** `toLowerCase()`, restricted to the ASCII letters. Full Unicode
      lower-casing maps only two non-ASCII characters to ASCII letters:
      U+212A (Kelvin sign) to 'k', and U+0130 to 'i' followed by U+0307.
      No upload pattern contains a 'k', and the one 'i' (in "gif") must be
      followed by 'f', not U+0307. So the filters this is used in accept the
      same names under either mapping. */
  function ToLower(s: string): (r: string)
    ensures |r| == |s|
    ensures forall i :: 0 <= i < |s| ==> r[i] == LowerChar(s[i])
  {
    seq(|s|, i requires 0 <= i < |s| => LowerChar(s[i]))
  }

  lemma ToLowerIdempotent(s: string)
    ensures ToLower(ToLower(s)) == ToLower(s)
  {
  }

  /** `pat` occurs in `text` starting at index `i`. */
  predicate OccursAt(text: string, pat: string, i: int) {
    0 <= i && i + |pat| <= |text| && text[i..i + |pat|] == pat
  }

  /** Whether `pat` occurs in `text` at some position: what `/pat/.test(text)`
      decides for a pattern made of plain letters. */
  function Contains(text: string, pat: string): (r: bool)
    ensures r <==> exists i :: OccursAt(text, pat, i)
    decreases |text|
  {
    if |text| < |pat| then false
    else if text[..|pat|] == pat then
      assert OccursAt(text, pat, 0);
      true
    else
      var r := Contains(text[1..], pat);
      assert r <==> exists i :: OccursAt(text, pat, i) by {
        forall j | 0 <= j
          ensures OccursAt(text[1..], pat, j) <==> OccursAt(text, pat, j + 1)
        {
          if j + |pat| <= |text[1..]| {
            assert text[1..][j..j + |pat|] == text[j + 1..j + 1 + |pat|];
          }
        }
        if exists i :: OccursAt(text, pat, i) {
          var i :| OccursAt(text, pat, i);
          assert i != 0;
          assert OccursAt(text[1..], pat, i - 1);
        }
      }
      r
  }

  /** `/p0|p1|...|pn/.test(text)`: some alternative occurs in `text`. */
  function MatchesAny(text: string, pats: seq<string>): (r: bool)
    ensures r <==> exists k :: 0 <= k < |pats| && Contains(text, pats[k])
  {
    if pats == [] then false
    else Contains(text, pats[0]) || MatchesAny(text, pats[1..])
  }

  /** The index of the last `c` in `s`, or -1. */
  function LastIndexOf(s: string, c: char): (r: int)
    ensures -1 <= r < |s|
    ensures r >= 0 ==> s[r] == c
    ensures forall k :: r < k < |s| ==> s[k] != c
  {
    if s == [] then -1
    else if s[|s| - 1] == c then |s| - 1
    else LastIndexOf(s[..|s| - 1], c)
  }

  /** Node's `path.extname` of a base name (one without '/'): the part from the
      last '.' on, or "" when there is no '.', when the only '.' leads the name,
      or when the name is "..". */
  function ExtName(name: string): (r: string)
    ensures r == [] || (r[0] == '.' && |r| <= |name| && r == name[|name| - |r|..])
    ensures forall k :: 1 <= k < |r| ==> r[k] != '.'
  {
    var d := LastIndexOf(name, '.');
    if d <= 0 || name == ".." then [] else name[d..]
  }

  /** A name of the form `base.ext`, with a non-empty `base` and no '.' in
      `ext`, has the extension ".ext". */
  lemma ExtNameOfSuffix(base: string, ext: string)
    requires base != [] && ext != [] && '.' !in ext
    ensures ExtName(base + "." + ext) == "." + ext
  {
    var name := base + "." + ext;
    var d := LastIndexOf(name, '.');
    assert name[|base|] == '.';
    forall k | |base| < k < |name| ensures name[k] != '.' {
      assert name[k] == ext[k - |base| - 1];
    }
    assert d == |base|;
    assert name[d..] == "." + ext;
  }

  lemma {:induction false} LastIndexOfLower(s: string)
    ensures LastIndexOf(ToLower(s), '.') == LastIndexOf(s, '.')
  {
    if s != [] {
      assert ToLower(s)[..|s| - 1] == ToLower(s[..|s| - 1]);
      LastIndexOfLower(s[..|s| - 1]);
    }
  }

  /** Lower-casing a name and taking its extension commute. */
  lemma ExtNameLower(name: string)
    ensures ExtName(ToLower(name)) == ToLower(ExtName(name))
  {
    LastIndexOfLower(name);
    var d := LastIndexOf(name, '.');
    if ToLower(name) == ".." {
      assert name[0] == '.' && name[1] == '.';
      assert name == "..";
    }
    if d > 0 && name != ".." {
      assert ToLower(name)[d..] == ToLower(name[d..]);
    }
  }
}
