// The text helpers of the flt.php source rewriter: the token scanners that
// find an operand to the left or right of an operator, the right-to-left
// split used to splice a call around that operand, and the printf format
// parser used to rewrite a floating-point conversion into flt_ftoa.

module FltPhp {

  // ---------------------------------------------------------------------------
  // Character classes
  // ---------------------------------------------------------------------------

  /** The characters PHP's trim() strips by default: space, tab, newline,
      carriage return, NUL and vertical tab. */
  predicate IsTrimmed(ch: char)
  {
    ch == ' ' || ch == '\t' || ch == '\n' || ch == '\r' || ch == '\0' || ch == '\U{000B}'
  }

  /** The class [A-Za-z0-9_]. */
  predicate IsWord(ch: char)
  {
    ('A' <= ch <= 'Z') || ('a' <= ch <= 'z') || ('0' <= ch <= '9') || ch == '_'
  }

  /** The PCRE class \s: space, tab, newline, vertical tab, form feed and
      carriage return. */
  predicate IsSpace(ch: char)
  {
    ch == ' ' || ch == '\t' || ch == '\n' || ch == '\U{000B}' || ch == '\U{000C}' || ch == '\r'
  }

  /** A character get_previous_token keeps: a word character or one of the
      extra characters the caller allows. */
  predicate Accepted(ch: char, allow: string)
  {
    IsWord(ch) || ch in allow
  }

  // ---------------------------------------------------------------------------
  // trim()
  // ---------------------------------------------------------------------------

  function TrimLeft(s: string): (r: string)
    ensures |r| <= |s| && r == s[|s| - |r|..]
    ensures forall k :: 0 <= k < |s| - |r| ==> IsTrimmed(s[k])
    ensures |r| == 0 || !IsTrimmed(r[0])
  {
    if |s| > 0 && IsTrimmed(s[0]) then TrimLeft(s[1..]) else s
  }

  function TrimRight(s: string): (r: string)
    ensures |r| <= |s| && r == s[..|r|]
    ensures forall k :: |r| <= k < |s| ==> IsTrimmed(s[k])
    ensures |r| == 0 || !IsTrimmed(r[|r| - 1])
  {
    if |s| > 0 && IsTrimmed(s[|s| - 1]) then TrimRight(s[..|s| - 1]) else s
  }

  /** PHP trim(): strips the trimmed characters from both ends. */
  function Trim(s: string): (r: string)
    ensures |r| == 0 || (!IsTrimmed(r[0]) && !IsTrimmed(r[|r| - 1]))
  {
    TrimRight(TrimLeft(s))
  }

  // ---------------------------------------------------------------------------
  // get_previous_token
  // ---------------------------------------------------------------------------

  /** The longest suffix of s made of accepted characters. */
  function TokenSuffix(s: string, allow: string): (r: string)
    ensures |r| <= |s| && r == s[|s| - |r|..]
    ensures forall k :: 0 <= k < |r| ==> Accepted(r[k], allow)
    ensures |r| == |s| || !Accepted(s[|s| - |r| - 1], allow)
  {
    if |s| == 0 || !Accepted(s[|s| - 1], allow) then []
    else TokenSuffix(s[..|s| - 1], allow) + [s[|s| - 1]]
  }

  /** What get_previous_token returns: the token that ends the trimmed input. */
  function PreviousToken(input: string, allow: string): string
  {
    TokenSuffix(Trim(input), allow)
  }

  /** A suffix of s of length n that is all accepted and cannot be extended is
      the token suffix. */
  lemma SuffixUnique(s: string, allow: string, n: nat)
    requires n <= |s|
    requires forall k :: |s| - n <= k < |s| ==> Accepted(s[k], allow)
    requires n == |s| || !Accepted(s[|s| - n - 1], allow)
    ensures TokenSuffix(s, allow) == s[|s| - n..]
  {
  }

  /** get_previous_token: walks the trimmed input from its end, prepending
      characters while they are accepted. */
  method GetPreviousToken(input: string, allow: string) returns (token: string)
    ensures token == PreviousToken(input, allow)
  {
    var t := Trim(input);
    token := "";
    var i := |t| - 1;
    while i >= 0 && Accepted(t[i], allow)
      invariant -1 <= i < |t|
      invariant token == t[i + 1..]
      invariant forall k :: i + 1 <= k < |t| ==> Accepted(t[k], allow)
      decreases i
    {
      token := [t[i]] + token;
      i := i - 1;
    }
    SuffixUnique(t, allow, |t| - i - 1);
  }

  // ---------------------------------------------------------------------------
  // split_previous_token: explode, array_pop, implode
  // ---------------------------------------------------------------------------

  /** sep occurs in s starting at position j. */
  predicate OccursAt(s: string, sep: string, j: int)
  {
    0 <= j && j + |sep| <= |s| && s[j..j + |sep|] == sep
  }

  /** PHP strpos(s, sep, i) for a non-empty sep: the first occurrence at or
      after i, or -1. */
  function IndexFrom(s: string, sep: string, i: nat): (k: int)
    requires |sep| > 0 && i <= |s|
    ensures k == -1 || (i <= k && OccursAt(s, sep, k))
    ensures forall j :: i <= j && (k < 0 || j < k) ==> !OccursAt(s, sep, j)
    decreases |s| - i
  {
    if i + |sep| > |s| then -1
    else if s[i..i + |sep|] == sep then i
    else IndexFrom(s, sep, i + 1)
  }

  /** PHP explode(sep, s): the pieces between the occurrences of sep found
      scanning left to right. */
  function Explode(sep: string, s: string): (r: seq<string>)
    requires |sep| > 0
    ensures |r| >= 1
    decreases |s|
  {
    var k := IndexFrom(s, sep, 0);
    if k < 0 then [s] else [s[..k]] + Explode(sep, s[k + |sep|..])
  }

  /** PHP implode(sep, parts). */
  function Implode(sep: string, parts: seq<string>): string
  {
    if |parts| == 0 then ""
    else if |parts| == 1 then parts[0]
    else parts[0] + sep + Implode(sep, parts[1..])
  }

  /** split_previous_token: every piece but the last joined back, and the last
      piece. */
  function SplitPreviousToken(token: string, input: string): (string, string)
    requires |token| > 0
  {
    var w := Explode(token, input);
    (Implode(token, w[..|w| - 1]), w[|w| - 1])
  }

  /** An occurrence of sep at k splits s into the text before it, sep and the
      text after it. */
  lemma SplitAround(s: string, sep: string, k: int)
    requires OccursAt(s, sep, k)
    ensures s == s[..k] + sep + s[k + |sep|..]
  {
    assert s == s[..k] + s[k..k + |sep|] + s[k + |sep|..];
  }

  /** Joining what explode produced gives back the input. */
  lemma {:induction false} ExplodeImplode(sep: string, s: string)
    requires |sep| > 0
    ensures Implode(sep, Explode(sep, s)) == s
    decreases |s|
  {
    var k := IndexFrom(s, sep, 0);
    ExplodeStep(sep, s);
    if k >= 0 {
      var rest := s[k + |sep|..];
      var w := Explode(sep, rest);
      ExplodeImplode(sep, rest);
      var parts := [s[..k]] + w;
      assert parts[1..] == w;
      assert Implode(sep, parts) == s[..k] + sep + rest;
      SplitAround(s, sep, k);
    }
  }

  /** One step of explode: no occurrence leaves s whole, else the piece
      before the first occurrence comes first. */
  lemma ExplodeStep(sep: string, s: string)
    requires |sep| > 0
    ensures var k := IndexFrom(s, sep, 0);
      Explode(sep, s) == if k < 0 then [s] else [s[..k]] + Explode(sep, s[k + |sep|..])
  {
  }

  /** The last piece explode produces holds no occurrence of the separator. */
  lemma {:induction false} ExplodeLast(sep: string, s: string)
    requires |sep| > 0
    ensures var w := Explode(sep, s); IndexFrom(w[|w| - 1], sep, 0) == -1
    decreases |s|
  {
    var k := IndexFrom(s, sep, 0);
    ExplodeStep(sep, s);
    var w := Explode(sep, s);
    if k >= 0 {
      var rest := s[k + |sep|..];
      ExplodeLast(sep, rest);
      var v := Explode(sep, rest);
      assert w == [s[..k]] + v;
      assert w[|w| - 1] == v[|v| - 1];
    } else {
      assert w[|w| - 1] == s;
    }
  }

  /** Dropping the last part and joining: the joined prefix, sep and the last
      part spell out the whole join. */
  lemma {:induction false} ImplodeLast(sep: string, parts: seq<string>)
    requires |parts| >= 2
    ensures Implode(sep, parts) == Implode(sep, parts[..|parts| - 1]) + sep + parts[|parts| - 1]
    decreases |parts|
  {
    if |parts| > 2 {
      ImplodeLast(sep, parts[1..]);
      assert parts[1..][..|parts| - 2] == parts[..|parts| - 1][1..];
    }
  }

  /** split_previous_token: when the token occurs, the two parts around it
      spell out the input and the right part holds no further occurrence;
      when it does not occur, the result is ['', input]. */
  lemma SplitParts(token: string, input: string)
    requires |token| > 0
    ensures var r := SplitPreviousToken(token, input);
      if IndexFrom(input, token, 0) >= 0 then
        r.0 + token + r.1 == input && IndexFrom(r.1, token, 0) == -1
      else
        r == ("", input)
  {
    var w := Explode(token, input);
    var r := SplitPreviousToken(token, input);
    assert r == (Implode(token, w[..|w| - 1]), w[|w| - 1]);
    var k := IndexFrom(input, token, 0);
    ExplodeStep(token, input);
    if k >= 0 {
      assert |w| >= 2;
      ImplodeLast(token, w);
      ExplodeImplode(token, input);
      assert r.0 + token + r.1 == Implode(token, w) == input;
      ExplodeLast(token, input);
    } else {
      assert w == [input];
      assert w[..0] == [];
    }
  }

  /** Scanning stops at the first occurrence, so a self-overlapping token is
      split where explode cut it, not at its rightmost start. */
  lemma SplitOverlapping()
    ensures SplitPreviousToken("aa", "aaa") == ("", "a")
  {
    assert IndexFrom("aaa", "aa", 0) == 0;
    assert IndexFrom("a", "aa", 0) == -1;
    assert Explode("aa", "aaa") == ["", "a"];
  }

  // ---------------------------------------------------------------------------
  // get_next_token
  // ---------------------------------------------------------------------------

  /** The end of the run of word characters starting at i. */
  function WordRun(s: string, i: nat): (j: nat)
    requires i <= |s|
    ensures i <= j <= |s|
    ensures forall k :: i <= k < j ==> IsWord(s[k])
    ensures j == |s| || !IsWord(s[j])
    decreases |s| - i
  {
    if i < |s| && IsWord(s[i]) then WordRun(s, i + 1) else i
  }

  /** The end of the run of \s characters starting at i. */
  function SpaceRun(s: string, i: nat): (j: nat)
    requires i <= |s|
    ensures i <= j <= |s|
    ensures forall k :: i <= k < j ==> IsSpace(s[k])
    ensures j == |s| || !IsSpace(s[j])
    decreases |s| - i
  {
    if i < |s| && IsSpace(s[i]) then SpaceRun(s, i + 1) else i
  }

  /** Parenthesis depth: opening minus closing parentheses. */
  function Depth(w: string): int
  {
    if |w| == 0 then 0
    else Depth(w[..|w| - 1]) + (if w[|w| - 1] == '(' then 1 else if w[|w| - 1] == ')' then -1 else 0)
  }

  /** Continues the search for the end of the group opened at m, knowing that
      no prefix of s[m..j] except the empty one is balanced. */
  function GroupEndFrom(s: string, m: nat, j: nat): (e: int)
    requires m < j <= |s|
    requires forall i :: m < i <= j ==> Depth(s[m..i]) != 0
    ensures e == -1 || (j < e <= |s| && Depth(s[m..e]) == 0)
    ensures forall i :: m < i <= |s| && (e < 0 || i < e) ==> Depth(s[m..i]) != 0
    decreases |s| - j
  {
    if j == |s| then -1
    else
      assert s[m..j + 1][..j - m] == s[m..j];
      if Depth(s[m..j + 1]) == 0 then j + 1 else GroupEndFrom(s, m, j + 1)
  }

  /** The end (exclusive) of the parenthesised group opened at m: the first
      point where the depth returns to zero, or -1 when it never does. */
  function GroupEnd(s: string, m: nat): (e: int)
    requires m < |s| && s[m] == '('
    ensures e == -1 || (m < e <= |s| && Depth(s[m..e]) == 0)
    ensures forall i :: m < i <= |s| && (e < 0 || i < e) ==> Depth(s[m..i]) != 0
  {
    assert s[m..m + 1][..0] == [];
    GroupEndFrom(s, m, m + 1)
  }

  /** PHP strpos(token, fn) === 0 (an empty fn matches at 0). */
  predicate StartsWith(token: string, fn: string)
  {
    |fn| <= |token| && token[..|fn|] == fn
  }

  /** What get_next_token returns for the trimmed input t. */
  function NextTokenOf(t: string, fn: string): string
  {
    var n := WordRun(t, 0);
    if StartsWith(t[..n], fn) || (n < |t| && t[n] == '(') then
      var m := SpaceRun(t, n);
      if m < |t| && t[m] == '(' then
        var e := GroupEnd(t, m);
        if e < 0 then "" else t[..e]
      else ""
    else t[..n]
  }

  /** What get_next_token returns. */
  function NextToken(input: string, fn: string): string
  {
    NextTokenOf(Trim(input), fn)
  }

  /** The identifier scan of get_next_token. */
  method ScanWord(t: string) returns (token: string, i: nat)
    ensures i == WordRun(t, 0) && token == t[..i]
  {
    token := "";
    i := 0;
    while i < |t| && IsWord(t[i])
      invariant 0 <= i <= |t|
      invariant token == t[..i]
      invariant forall k :: 0 <= k < i ==> IsWord(t[k])
    {
      token := token + [t[i]];
      i := i + 1;
    }
  }

  /** The whitespace scan of get_next_token. */
  method ScanSpace(t: string, token0: string, n: nat) returns (token: string, i: nat)
    requires n <= |t| && token0 == t[..n]
    ensures i == SpaceRun(t, n) && token == t[..i]
  {
    token := token0;
    i := n;
    while i < |t| && IsSpace(t[i])
      invariant n <= i <= |t|
      invariant token == t[..i]
      invariant forall k :: n <= k < i ==> IsSpace(t[k])
    {
      token := token + [t[i]];
      i := i + 1;
    }
  }

  /** The parameter scan of get_next_token: appends characters from the
      opening parenthesis at m until the depth returns to zero, and clears
      the token when the input ends first. */
  method ScanGroup(t: string, token0: string, m: nat) returns (token: string)
    requires m < |t| && t[m] == '(' && token0 == t[..m]
    ensures token == (if GroupEnd(t, m) < 0 then "" else t[..GroupEnd(t, m)])
  {
    token := token0;
    var i := m;
    var level := 0;
    while i < |t|
      invariant m <= i <= |t|
      invariant token == t[..i]
      invariant level == Depth(t[m..i])
      invariant forall j :: m < j <= i ==> Depth(t[m..j]) != 0
    {
      token := token + [t[i]];
      assert t[m..i + 1][..i - m] == t[m..i];
      if t[i] == '(' {
        level := level + 1;
      } else if t[i] == ')' {
        level := level - 1;
      }
      if level == 0 {
        return;
      }
      i := i + 1;
    }
    assert i == m || level != 0;
    assert GroupEnd(t, m) < 0;
    token := "";
  }

  /** get_next_token: the leading identifier of the trimmed input, or, when it
      names a call (it starts with fn or is followed by '('), the identifier
      with its whitespace and its balanced parameter list. */
  method GetNextToken(input: string, fn: string) returns (token: string)
    ensures token == NextToken(input, fn)
  {
    var t := Trim(input);
    var i;
    token, i := ScanWord(t);
    if StartsWith(token, fn) || (i < |t| && t[i] == '(') {
      token, i := ScanSpace(t, token, i);
      if i < |t| && t[i] == '(' {
        token := ScanGroup(t, token, i);
      } else {
        token := "";
      }
    }
  }

  /** A plain token: when the leading identifier of the trimmed input t
      neither starts with fn nor is followed by '(', get_next_token returns
      exactly that identifier, the longest run of word characters at the
      start of t. */
  lemma NextTokenPlain(t: string, fn: string)
    requires var n := WordRun(t, 0); !StartsWith(t[..n], fn) && !(n < |t| && t[n] == '(')
    ensures var r := NextTokenOf(t, fn);
      r == t[..|r|] &&
      (forall k :: 0 <= k < |r| ==> IsWord(r[k])) &&
      (|r| == |t| || !IsWord(t[|r|]))
  {
  }

  /** A group that closes ends with ')'. */
  lemma GroupCloses(t: string, m: nat)
    requires m < |t| && t[m] == '('
    requires GroupEnd(t, m) >= 0
    ensures m + 1 < GroupEnd(t, m) && t[GroupEnd(t, m) - 1] == ')'
  {
    var e := GroupEnd(t, m);
    DepthOfOpen(t, m);
    assert e != m + 1;
    DepthPositive(t, m, e - 1);
    assert t[m..e][..e - 1 - m] == t[m..e - 1];
  }

  /** A call: when the leading identifier of the trimmed input t starts with
      fn or is followed by '(', get_next_token returns either nothing or a
      prefix of t that runs on over whitespace to a parenthesised group which
      is balanced and closes only at its last character; it returns nothing
      exactly when no '(' follows the whitespace or the group never closes. */
  lemma NextTokenCall(t: string, fn: string)
    requires var n := WordRun(t, 0); StartsWith(t[..n], fn) || (n < |t| && t[n] == '(')
    ensures var r := NextTokenOf(t, fn); var m := SpaceRun(t, WordRun(t, 0));
      r == "" ||
      (r == t[..|r|] && m + 1 < |r| && r[m] == '(' && r[|r| - 1] == ')' &&
       Depth(r[m..]) == 0 &&
       (forall i :: m < i < |r| ==> Depth(r[m..i]) != 0))
    ensures var m := SpaceRun(t, WordRun(t, 0));
      NextTokenOf(t, fn) == "" <==> (m == |t| || t[m] != '(' || GroupEnd(t, m) < 0)
  {
    var m := SpaceRun(t, WordRun(t, 0));
    if m < |t| && t[m] == '(' {
      var e := GroupEnd(t, m);
      if e >= 0 {
        GroupCloses(t, m);
        var r := t[..e];
        assert NextTokenOf(t, fn) == r;
        assert r[m..] == t[m..e];
        forall i | m < i < |r|
          ensures Depth(r[m..i]) != 0
        {
          assert r[m..i] == t[m..i];
        }
      }
    }
  }

  /** The group opened at m has depth one after its first character. */
  lemma DepthOfOpen(t: string, m: nat)
    requires m < |t| && t[m] == '('
    ensures Depth(t[m..m + 1]) == 1
  {
    assert t[m..m + 1][..0] == [];
  }

  /** Until the group closes, its depth stays positive: it starts at one and
      moves by one per character, so it cannot skip past zero. */
  lemma {:induction false} DepthPositive(t: string, m: nat, j: nat)
    requires m < j <= |t| && t[m] == '('
    requires forall i :: m < i <= j ==> Depth(t[m..i]) != 0
    ensures Depth(t[m..j]) > 0
    decreases j
  {
    if j == m + 1 {
      DepthOfOpen(t, m);
    } else {
      DepthPositive(t, m, j - 1);
      assert t[m..j][..j - 1 - m] == t[m..j - 1];
    }
  }

  // ---------------------------------------------------------------------------
  // parse_format
  // ---------------------------------------------------------------------------

  /** The six parts of a conversion specification, in the order of the array
      parse_format returns ('lft', 'pdd', 'wdt', 'sgn', 'prc', 'spc'). */
  datatype Format = Format(left: string, padding: string, width: string,
                           signed: string, precision: string, specifier: string)

  /** The scanner's mode: 1 before the width (a '0' is padding), 2 in the
      width, 3 in the precision or the specifier. */
  datatype Mode = Flags | Width | Precision

  datatype State = State(f: Format, mode: Mode)

  const Blank := Format("", "", "", "", "", "")

  /** Fields never assigned before the first '%' read as empty strings. */
  const Start := State(Blank, Flags)

  predicate IsNonZeroDigit(ch: char)
  {
    ('1' <= ch <= '9') || ch == '*'
  }

  predicate IsSpecifier(ch: char)
  {
    ch == 'E' || ch == 'e' || ch == 'F' || ch == 'f' || ch == 'G' || ch == 'g' || ch == 'l' || ch == 'h'
  }

  /** One pass of parse_format's switch. */
  function Step(st: State, ch: char): State
  {
    var f := st.f;
    if ch == '%' then State(Blank, st.mode)
    else if ch == '-' then st.(f := f.(left := f.left + [ch]))
    else if ch == '+' then st.(f := f.(signed := f.signed + [ch]))
    else if ch == ' ' then st.(f := f.(padding := f.padding + ['_', ch]))
    else if ch == '0' then
      match st.mode
      case Flags => st.(f := f.(padding := f.padding + [ch]))
      case Width => st.(f := f.(width := f.width + [ch]))
      case Precision => st.(f := f.(precision := f.precision + [ch]))
    else if IsNonZeroDigit(ch) then
      match st.mode
      case Flags => State(f.(width := f.width + [ch]), Width)
      case Width => st.(f := f.(width := f.width + [ch]))
      case Precision => st.(f := f.(precision := f.precision + [ch]))
    else if ch == '.' then State(f.(precision := f.precision + [ch]), Precision)
    else if IsSpecifier(ch) then State(f.(specifier := f.specifier + [ch]), Precision)
    else st
  }

  /** The state after scanning s from st. */
  function Run(st: State, s: string): State
  {
    if |s| == 0 then st else Step(Run(st, s[..|s| - 1]), s[|s| - 1])
  }

  /** What parse_format returns. */
  function ParsedFormat(format: string): Format
  {
    Run(Start, format).f
  }

  /** parse_format: scans the format once, updating the six fields and the
      mode as each character directs. */
  method ParseFormat(format: string) returns (r: Format)
    ensures r == ParsedFormat(format)
  {
    var left, padding, width, signed, precision, specifier := "", "", "", "", "", "";
    var mode := Flags;
    var i := 0;
    while i < |format|
      invariant 0 <= i <= |format|
      invariant State(Format(left, padding, width, signed, precision, specifier), mode) == Run(Start, format[..i])
    {
      var ch := format[i];
      assert format[..i + 1][..i] == format[..i];
      if ch == '%' {
        left, padding, width, signed, precision, specifier := "", "", "", "", "", "";
      } else if ch == '-' {
        left := left + [ch];
      } else if ch == '+' {
        signed := signed + [ch];
      } else if ch == ' ' {
        padding := padding + ['_', ch];
      } else if ch == '0' {
        match mode
        case Flags => padding := padding + [ch];
        case Width => width := width + [ch];
        case Precision => precision := precision + [ch];
      } else if IsNonZeroDigit(ch) {
        match mode
        case Flags =>
          mode := Width;
          width := width + [ch];
        case Width => width := width + [ch];
        case Precision => precision := precision + [ch];
      } else if ch == '.' {
        mode := Precision;
        precision := precision + [ch];
      } else if IsSpecifier(ch) {
        mode := Precision;
        specifier := specifier + [ch];
      }
      i := i + 1;
    }
    assert format[..i] == format;
    r := Format(left, padding, width, signed, precision, specifier);
  }

  /** Each field holds only the characters its cases append. */
  predicate Classified(f: Format)
  {
    (forall k :: 0 <= k < |f.left| ==> f.left[k] == '-') &&
    (forall k :: 0 <= k < |f.signed| ==> f.signed[k] == '+') &&
    (forall k :: 0 <= k < |f.padding| ==> f.padding[k] in "0_ ") &&
    (forall k :: 0 <= k < |f.width| ==> f.width[k] == '0' || IsNonZeroDigit(f.width[k])) &&
    (forall k :: 0 <= k < |f.precision| ==> f.precision[k] == '.' || f.precision[k] == '0' || IsNonZeroDigit(f.precision[k])) &&
    (forall k :: 0 <= k < |f.specifier| ==> IsSpecifier(f.specifier[k]))
  }

  /** parse_format keeps every field within its own character class. */
  lemma {:induction false} RunClassified(st: State, s: string)
    requires Classified(st.f)
    ensures Classified(Run(st, s).f)
    decreases |s|
  {
    if |s| > 0 {
      RunClassified(st, s[..|s| - 1]);
    }
  }

  function Rank(m: Mode): nat
  {
    match m
    case Flags => 1
    case Width => 2
    case Precision => 3
  }

  /** The mode only moves forward: '%' clears the fields but not the mode. */
  lemma {:induction false} RunModeMonotone(st: State, s: string)
    ensures Rank(Run(st, s).mode) >= Rank(st.mode)
    decreases |s|
  {
    if |s| > 0 {
      RunModeMonotone(st, s[..|s| - 1]);
    }
  }

  /** The parser is in the precision mode exactly when the format holds a '.'
      or a specifier letter, and in the width mode exactly when it holds
      neither but holds a nonzero digit or '*'. */
  lemma {:induction false} ParsedMode(s: string)
    ensures Run(Start, s).mode == Precision <==>
      exists k :: 0 <= k < |s| && (s[k] == '.' || IsSpecifier(s[k]))
    ensures Run(Start, s).mode == Width <==>
      (forall k :: 0 <= k < |s| ==> s[k] != '.' && !IsSpecifier(s[k])) &&
      exists k :: 0 <= k < |s| && IsNonZeroDigit(s[k])
    decreases |s|
  {
    if |s| > 0 {
      var p := s[..|s| - 1];
      ParsedMode(p);
      assert forall k :: 0 <= k < |p| ==> s[k] == p[k];
      var c := s[|s| - 1];
      if c == '.' || IsSpecifier(c) {
        assert s[|s| - 1] == c;
      } else if Run(Start, p).mode == Precision {
        var k :| 0 <= k < |p| && (p[k] == '.' || IsSpecifier(p[k]));
        assert s[k] == p[k];
      } else if IsNonZeroDigit(c) {
        assert s[|s| - 1] == c;
      } else if Run(Start, p).mode == Width {
        var k :| 0 <= k < |p| && IsNonZeroDigit(p[k]);
        assert s[k] == p[k];
      }
    }
  }

  /** Only the text after the last '%' fills the fields; what precedes it
      matters only through the mode it leaves behind. */
  lemma {:induction false} PercentResets(x: string, y: string)
    requires forall k :: 0 <= k < |y| ==> y[k] != '%'
    ensures Run(Start, x + "%" + y) == Run(State(Blank, Run(Start, x).mode), y)
    decreases |y|
  {
    if |y| == 0 {
      assert x + "%" + y == x + "%";
      assert (x + "%")[..|x|] == x;
    } else {
      var y' := y[..|y| - 1];
      PercentResets(x, y');
      assert (x + "%" + y)[..|x + "%" + y| - 1] == x + "%" + y';
    }
  }

  /** Digits in the width or precision mode append to that field. */
  lemma {:induction false} DigitsAppend(st: State, ds: string)
    requires st.mode == Width || st.mode == Precision
    requires forall k :: 0 <= k < |ds| ==> ds[k] == '0' || IsNonZeroDigit(ds[k])
    ensures Run(st, ds) == if st.mode == Width
      then st.(f := st.f.(width := st.f.width + ds))
      else st.(f := st.f.(precision := st.f.precision + ds))
    decreases |ds|
  {
    if |ds| > 0 {
      var p := ds[..|ds| - 1];
      DigitsAppend(st, p);
      assert p + [ds[|ds| - 1]] == ds;
    }
  }

  /** Before the width, zeros are padding. */
  lemma {:induction false} ZerosPad(st: State, zs: string)
    requires st.mode == Flags
    requires forall k :: 0 <= k < |zs| ==> zs[k] == '0'
    ensures Run(st, zs) == st.(f := st.f.(padding := st.f.padding + zs))
    decreases |zs|
  {
    if |zs| > 0 {
      var p := zs[..|zs| - 1];
      ZerosPad(st, p);
      assert p + [zs[|zs| - 1]] == zs;
    }
  }

  /** Scanning one more character is one more step. */
  lemma RunPrefix(st: State, s: string, k: nat)
    requires k < |s|
    ensures Run(st, s[..k + 1]) == Step(Run(st, s[..k]), s[k])
  {
    assert s[..k + 1][..k] == s[..k];
  }

  /** The six fields of a conversion with flags, zero padding, a width and a
      precision. */
  lemma ParseExample()
    ensures ParsedFormat("%-08.3f") == Format("-", "0", "8", "", ".3", "f")
  {
    var s := "%-08.3f";
    assert s[..0] == "";
    RunPrefix(Start, s, 0);
    assert Run(Start, s[..1]) == Start;
    RunPrefix(Start, s, 1);
    assert Run(Start, s[..2]) == State(Blank.(left := "-"), Flags);
    RunPrefix(Start, s, 2);
    assert Run(Start, s[..3]) == State(Blank.(left := "-", padding := "0"), Flags);
    RunPrefix(Start, s, 3);
    assert Run(Start, s[..4]) == State(Blank.(left := "-", padding := "0", width := "8"), Width);
    RunPrefix(Start, s, 4);
    assert Run(Start, s[..5]) == State(Blank.(left := "-", padding := "0", width := "8", precision := "."), Precision);
    RunPrefix(Start, s, 5);
    RunPrefix(Start, s, 6);
    assert s[..7] == s;
  }

  /** A space flag is recorded as "_ ", a length modifier joins the conversion
      letter, and a conversion letter parse_format does not know is skipped. */
  lemma ParseExampleSpace()
    ensures ParsedFormat("% +1.9le") == Format("", "_ ", "1", "+", ".9", "le")
    ensures ParsedFormat("%5d") == Format("", "", "5", "", "", "")
  {
    var s := "% +1.9le";
    assert s[..0] == "";
    RunPrefix(Start, s, 0);
    RunPrefix(Start, s, 1);
    RunPrefix(Start, s, 2);
    assert Run(Start, s[..3]) == State(Blank.(padding := "_ ", signed := "+"), Flags);
    RunPrefix(Start, s, 3);
    RunPrefix(Start, s, 4);
    assert Run(Start, s[..5]) == State(Blank.(padding := "_ ", signed := "+", width := "1", precision := "."), Precision);
    RunPrefix(Start, s, 5);
    RunPrefix(Start, s, 6);
    RunPrefix(Start, s, 7);
    assert s[..8] == s;
    var d := "%5d";
    assert d[..0] == "";
    RunPrefix(Start, d, 0);
    RunPrefix(Start, d, 1);
    RunPrefix(Start, d, 2);
    assert d[..3] == d;
  }
}
