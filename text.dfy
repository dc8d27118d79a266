/** The JavaScript string operations the core relies on: `toLowerCase`,
    `trim`, `includes`, `Array.prototype.join`, `String.prototype.split`
    and the decimal rendering of a number inside a template literal. */
module Text {

  /** `toLowerCase` on one character, for the ASCII letters A to Z; every
      other character is left as it is. */
  function LowerChar(c: char): char {
    if 'A' <= c <= 'Z' then (c as int + 32) as char else c
  }

  /** `toLowerCase` on a string, character by character. */
  function Lower(s: string): (r: string)
    ensures |r| == |s|
    ensures forall i :: 0 <= i < |s| ==> r[i] == LowerChar(s[i])
  {
    if s == [] then [] else [LowerChar(s[0])] + Lower(s[1..])
  }

  /** The characters `String.prototype.trim` removes: ECMAScript's
      WhiteSpace (tab, vertical tab, form feed, space, no-break space, the
      byte order mark and the other space separators) and LineTerminator
      (line feed, carriage return, line and paragraph separators). */
  predicate IsSpace(c: char) {
    || c == '\t' || c == '\n' || c == '\U{000B}' || c == '\U{000C}' || c == '\r'
    || c == ' ' || c == '\U{00A0}' || c == '\U{1680}'
    || ('\U{2000}' <= c <= '\U{200A}')
    || c == '\U{2028}' || c == '\U{2029}' || c == '\U{202F}' || c == '\U{205F}'
    || c == '\U{3000}' || c == '\U{FEFF}'
  }

  predicate AllSpace(s: string) {
    forall i :: 0 <= i < |s| ==> IsSpace(s[i])
  }

  /** Drops the leading white space: what is left is a suffix of `s`. */
  function TrimStart(s: string): (r: string)
    ensures |r| <= |s| && r == s[|s| - |r|..]
    ensures AllSpace(s[..|s| - |r|])
    ensures r != [] ==> !IsSpace(r[0])
    decreases |s|
  {
    if s != [] && IsSpace(s[0]) then TrimStart(s[1..]) else s
  }

  /** Drops the trailing white space: what is left is a prefix of `s`. */
  function TrimEnd(s: string): (r: string)
    ensures |r| <= |s| && r == s[..|r|]
    ensures AllSpace(s[|r|..])
    ensures r != [] ==> !IsSpace(r[|r| - 1])
    decreases |s|
  {
    if s != [] && IsSpace(s[|s| - 1]) then
      var r := TrimEnd(s[..|s| - 1]);
      assert s[|r|..] == s[..|s| - 1][|r|..] + [s[|s| - 1]];
      r
    else s
  }

  /** `String.prototype.trim`: it is empty exactly when `s` is all white
      space, and otherwise starts and ends with a character that is not. */
  function Trim(s: string): (r: string)
    ensures r == [] <==> AllSpace(s)
    ensures r != [] ==> !IsSpace(r[0]) && !IsSpace(r[|r| - 1])
  {
    var t := TrimStart(s);
    assert s == s[..|s| - |t|] + t;
    TrimEnd(t)
  }

  /** What `Trim` keeps is the slice of `s` starting at `i`, and all it
      drops on either side is white space. */
  lemma TrimIsSlice(s: string) returns (i: nat)
    ensures i + |Trim(s)| <= |s| && Trim(s) == s[i..i + |Trim(s)|]
    ensures AllSpace(s[..i]) && AllSpace(s[i + |Trim(s)|..])
  {
    var t := TrimStart(s);
    i := |s| - |t|;
    var r := TrimEnd(t);
    assert Trim(s) == r;
    assert t == s[i..];
    assert r == t[..|r|];
    assert r == s[i..i + |r|];
    assert t[|r|..] == s[i + |r|..];
  }

  /** Trimming twice trims nothing more. */
  lemma TrimIdempotent(s: string)
    ensures Trim(Trim(s)) == Trim(s)
  {
    var r := Trim(s);
    if r != [] {
      assert TrimStart(r) == r;
      assert TrimEnd(r) == r;
    }
  }

  /** `s.includes(t)`: `t` occurs in `s` at some position. */
  predicate Contains(s: string, t: string)
    decreases |s|
  {
    t <= s || (s != [] && Contains(s[1..], t))
  }

  /** A string without a comma cannot contain the separator. */
  lemma {:induction false} NoCommaNoSeparator(a: string)
    requires forall i :: 0 <= i < |a| ==> a[i] != ','
    ensures !Contains(a, ListSeparator)
    decreases |a|
  {
    if a != [] {
      assert a[0] != ListSeparator[0];
      NoCommaNoSeparator(a[1..]);
    }
  }

  /** `xs.join(sep)`. */
  function Join(xs: seq<string>, sep: string): (r: string)
    ensures xs == [] ==> r == []
    ensures |xs| == 1 ==> r == xs[0]
    decreases |xs|
  {
    if xs == [] then []
    else if |xs| == 1 then xs[0]
    else xs[0] + sep + Join(xs[1..], sep)
  }

  /** `s.split(sep)` for a non-empty separator: scanning from the left,
      every occurrence of `sep` ends one piece and starts the next. The
      result is never empty; splitting "" gives [""]. */
  function Split(s: string, sep: string): (r: seq<string>)
    requires sep != []
    ensures r != []
    decreases |s|
  {
    if s == [] then [[]]
    else if sep <= s then [[]] + Split(s[|sep|..], sep)
    else
      var rest := Split(s[1..], sep);
      [[s[0]] + rest[0]] + rest[1..]
  }

  /** The separator the category names are joined with and split at. */
  const ListSeparator := ", "

  lemma {:induction false} SplitWithoutSeparator(a: string)
    requires !Contains(a, ListSeparator)
    ensures Split(a, ListSeparator) == [a]
    decreases |a|
  {
    if a != [] {
      SplitWithoutSeparator(a[1..]);
      assert [a[0]] + a[1..] == a;
    }
  }

  lemma {:induction false} SplitAfterPiece(a: string, rest: string)
    requires !Contains(a, ListSeparator)
    ensures Split(a + ListSeparator + rest, ListSeparator) == [a] + Split(rest, ListSeparator)
    decreases |a|
  {
    var s := a + ListSeparator + rest;
    if a == [] {
      assert s == ListSeparator + rest;
      assert ListSeparator <= s;
      assert s[|ListSeparator|..] == rest;
    } else {
      assert !(ListSeparator <= a);
      if |a| == 1 {
        assert s[1] == ',';
      } else {
        assert s[..2] == a[..2];
      }
      assert !(ListSeparator <= s);
      assert s[1..] == a[1..] + ListSeparator + rest;
      SplitAfterPiece(a[1..], rest);
      assert [a[0]] + a[1..] == a;
    }
  }

  /** Splitting the joined names gives back the names, provided there is at
      least one and none contains the separator. */
  lemma {:induction false} SplitJoin(xs: seq<string>)
    requires xs != []
    requires forall x :: x in xs ==> !Contains(x, ListSeparator)
    ensures Split(Join(xs, ListSeparator), ListSeparator) == xs
    decreases |xs|
  {
    if |xs| == 1 {
      SplitWithoutSeparator(xs[0]);
    } else {
      SplitJoin(xs[1..]);
      SplitAfterPiece(xs[0], Join(xs[1..], ListSeparator));
    }
  }

  /** A leading character other than a comma joins the first piece. */
  lemma SplitOrdinaryChar(s: string)
    requires s != [] && s[0] != ','
    ensures Split(s, ListSeparator)
            == [[s[0]] + Split(s[1..], ListSeparator)[0]] + Split(s[1..], ListSeparator)[1..]
  {
    assert !(ListSeparator <= s);
  }

  /** With no names at all, the round trip yields one empty label. */
  lemma SplitJoinEmpty()
    ensures Split(Join([], ListSeparator), ListSeparator) == [""]
  {
  }

  /** A name that contains the separator comes back as two labels. */
  lemma SplitJoinBreaksName()
    ensures Split(Join(["A, B"], ListSeparator), ListSeparator) == ["A", "B"]
  {
    var s := "A, B";
    assert Join(["A, B"], ListSeparator) == s;
    assert ListSeparator <= s[1..];
    assert Split(s[3..], ListSeparator) == ["B"] by {
      NoCommaNoSeparator(s[3..]);
      SplitWithoutSeparator(s[3..]);
    }
    assert s[1..][|ListSeparator|..] == s[3..];
    assert Split(s[1..], ListSeparator) == ["", "B"];
    SplitOrdinaryChar(s);
    assert [s[0]] + Split(s[1..], ListSeparator)[0] == "A";
    assert Split(s[1..], ListSeparator)[1..] == ["B"];
  }

  function DigitChar(d: nat): char
    requires d < 10
  {
    ('0' as int + d) as char
  }

  /** The number a string of decimal digits denotes, read left to right. */
  function DigitsValue(s: string): nat
    requires forall i :: 0 <= i < |s| ==> '0' <= s[i] <= '9'
    decreases |s|
  {
    if s == [] then 0
    else 10 * DigitsValue(s[..|s| - 1]) + (s[|s| - 1] as int - '0' as int)
  }

  /** The decimal digits of `n`, as `${n}` renders a non-negative integer. */
  function Decimal(n: nat): (r: string)
    ensures r != []
    ensures forall i :: 0 <= i < |r| ==> '0' <= r[i] <= '9'
  {
    if n < 10 then [DigitChar(n)] else Decimal(n / 10) + [DigitChar(n % 10)]
  }

  /** The digits denote `n`, with no leading zero except for 0 itself. */
  lemma {:induction false} DecimalValue(n: nat)
    ensures DigitsValue(Decimal(n)) == n
    ensures Decimal(n)[0] != '0' || n == 0
    decreases n
  {
    if n >= 10 {
      DecimalValue(n / 10);
      var r := Decimal(n);
      assert r[..|r| - 1] == Decimal(n / 10);
      assert r[0] == Decimal(n / 10)[0];
    }
  }
}
