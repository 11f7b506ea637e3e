/** The best-effort parser `list_from_string`: strips brackets, splits on
    commas and converts each piece with Python's `int`, giving `None`
    instead of raising when any piece is not an integer literal. */
module Parse {
  import opened Wrappers

  /** The characters `list_from_string` strips from both ends. */
  const Brackets: set<char> := {'[', ']'}

  /** The ASCII characters Python's `int` ignores around a literal: space,
      tab, line feed, vertical tab, form feed, carriage return and the four
      separators 0x1C-0x1F. */
  const Whitespace: set<char> :=
    {' ', 9 as char, 10 as char, 11 as char, 12 as char, 13 as char,
     28 as char, 29 as char, 30 as char, 31 as char}

  /** Removes every leading character that is in `chars`. */
  function StripLeading(s: string, chars: set<char>): (r: string)
    ensures |r| <= |s| && r == s[|s| - |r|..]
    ensures forall i :: 0 <= i < |s| - |r| ==> s[i] in chars
    ensures r == [] || r[0] !in chars
  {
    if |s| > 0 && s[0] in chars then StripLeading(s[1..], chars) else s
  }

  /** Removes every trailing character that is in `chars`. */
  function StripTrailing(s: string, chars: set<char>): (r: string)
    ensures |r| <= |s| && r == s[..|r|]
    ensures forall i :: |r| <= i < |s| ==> s[i] in chars
    ensures r == [] || r[|r| - 1] !in chars
  {
    if |s| > 0 && s[|s| - 1] in chars then StripTrailing(s[..|s| - 1], chars) else s
  }

  /** Python's `str.strip(chars)`. */
  function Strip(s: string, chars: set<char>): string
  {
    StripTrailing(StripLeading(s, chars), chars)
  }

  /** The pieces joined back together with `sep` between them. */
  function Join(pieces: seq<string>, sep: char): string
    requires |pieces| > 0
  {
    if |pieces| == 1 then pieces[0] else pieces[0] + [sep] + Join(pieces[1..], sep)
  }

  /** Python's `str.split(sep)` for a one-character separator: the maximal
      runs between separators, including empty ones; never an empty list. */
  function Split(s: string, sep: char): (pieces: seq<string>)
    ensures |pieces| > 0
    ensures Join(pieces, sep) == s
    ensures forall i :: 0 <= i < |pieces| ==> sep !in pieces[i]
  {
    if s == [] then [[]]
    else
      var rest := Split(s[1..], sep);
      if s[0] == sep then
        assert ([[]] + rest)[1..] == rest;
        [[]] + rest
      else
        var pieces := [[s[0]] + rest[0]] + rest[1..];
        assert pieces[1..] == rest[1..];
        assert |rest| > 1 ==> Join(rest, sep) == rest[0] + [sep] + Join(rest[1..], sep);
        pieces
  }

  predicate IsDigit(c: char)
  {
    '0' <= c <= '9'
  }

  predicate IsDigits(s: string)
  {
    forall i :: 0 <= i < |s| ==> IsDigit(s[i])
  }

  function DigitValue(c: char): nat
    requires IsDigit(c)
  {
    (c as int) - ('0' as int)
  }

  /** The decimal value of a string of digits. */
  function DigitsValue(s: string): nat
    requires IsDigits(s)
  {
    if s == [] then 0 else DigitsValue(s[..|s| - 1]) * 10 + DigitValue(s[|s| - 1])
  }

  /** Text that is a decimal integer literal: one or more digits, with at
      most one sign in front of them. */
  predicate IsIntLiteral(t: string)
  {
    && |t| > 0 && t != "-" && t != "+"
    && forall i :: 0 <= i < |t| ==> IsDigit(t[i]) || (i == 0 && (t[i] == '-' || t[i] == '+'))
  }

  /** n is the value of literal t: its magnitude is the decimal value of
      the digits, negated exactly when t starts with a minus sign. */
  predicate LiteralValue(t: string, n: int)
    requires IsIntLiteral(t)
  {
    var digits := if IsDigit(t[0]) then t else t[1..];
    IsDigits(digits) && (if t[0] == '-' then -n else n) == DigitsValue(digits)
  }

  /** Python's `int` on a string, for ASCII input: optional surrounding
      whitespace, an optional sign, then one or more decimal digits.
      `None` where `int` raises. */
  function ParseInt(p: string): Option<int>
  {
    var t := Strip(p, Whitespace);
    if |t| > 1 && (t[0] == '-' || t[0] == '+') && IsDigits(t[1..]) then
      var magnitude: int := DigitsValue(t[1..]);
      Some(if t[0] == '-' then -magnitude else magnitude)
    else if |t| > 0 && IsDigits(t) then Some(DigitsValue(t))
    else None
  }

  /** `int` accepts exactly the text that is an integer literal once the
      surrounding whitespace is stripped, and gives that literal's value. */
  lemma ParseIntMeaning(p: string)
    ensures var t := Strip(p, Whitespace);
      ParseInt(p).Some? <==> IsIntLiteral(t)
    ensures var t := Strip(p, Whitespace);
      ParseInt(p).Some? ==> LiteralValue(t, ParseInt(p).value)
  {
    LiteralCases(Strip(p, Whitespace));
  }

  /** The two shapes `int` accepts, a signed and an unsigned run of digits,
      are exactly the integer literals. */
  lemma LiteralCases(t: string)
    ensures IsIntLiteral(t) <==>
      || (|t| > 1 && (t[0] == '-' || t[0] == '+') && IsDigits(t[1..]))
      || (|t| > 0 && IsDigits(t))
    ensures |t| > 1 && (t[0] == '-' || t[0] == '+') && IsDigits(t[1..]) ==>
      var m: int := DigitsValue(t[1..]); LiteralValue(t, if t[0] == '-' then -m else m)
    ensures |t| > 0 && IsDigits(t) ==> LiteralValue(t, DigitsValue(t))
  {
    if |t| > 0 && (t[0] == '-' || t[0] == '+') {
      assert !IsDigits(t) by {
        assert !IsDigit(t[0]);
      }
      assert IsDigits(t[1..]) <==> forall i :: 1 <= i < |t| ==> IsDigit(t[i]) by {
        assert forall i :: 1 <= i < |t| ==> t[1..][i - 1] == t[i];
      }
      if |t| == 1 {
        assert t == [t[0]];
      }
    }
  }

  /** The pieces `list_from_string` converts: the string with its brackets
      stripped, split on commas. */
  function Pieces(s: string): seq<string>
  {
    Split(Strip(s, Brackets), ',')
  }

  /** Every piece converted with `int`, or `None` when some piece is not an
      integer literal. */
  function ParseAll(pieces: seq<string>): (r: Option<seq<int>>)
    ensures r.Some? <==> forall i :: 0 <= i < |pieces| ==> ParseInt(pieces[i]).Some?
    ensures r.Some? ==> |r.value| == |pieces|
                        && forall i :: 0 <= i < |pieces| ==> ParseInt(pieces[i]) == Some(r.value[i])
  {
    if pieces == [] then Some([])
    else
      var head, tail := ParseInt(pieces[0]), ParseAll(pieces[1..]);
      assert forall i :: 0 < i < |pieces| ==> pieces[i] == pieces[1..][i - 1];
      if head.Some? && tail.Some? then
        var r := [head.value] + tail.value;
        assert forall i :: 0 < i < |pieces| ==> r[i] == tail.value[i - 1];
        Some(r)
      else None
  }

  /** What `list_from_string` returns. */
  function ParseList(s: string): Option<seq<int>>
  {
    ParseAll(Pieces(s))
  }

  /** The loop of `list_from_string`: every piece is replaced by its
      integer value, in order; the first piece that does not convert ends
      the loop with `None`, as the exception handler does in the original. */
  method ConvertPieces(pieces: seq<string>) returns (r: Option<seq<int>>)
    ensures r == ParseAll(pieces)
  {
    var values := new int[|pieces|];
    ghost var parsed: seq<int> := [];
    for i := 0 to |pieces|
      invariant values[..i] == parsed
      invariant forall k :: 0 <= k < i ==> ParseInt(pieces[k]) == Some(parsed[k])
    {
      var v := ParseInt(pieces[i]);
      if v.None? {
        ParseAllFails(pieces, i);
        return None;
      }
      values[i] := v.value;
      assert values[..i + 1] == values[..i] + [v.value];
      parsed := parsed + [v.value];
    }
    var converted := values[..];
    assert converted == values[..|pieces|];
    ParseAllSucceeds(pieces, converted);
    r := Some(converted);
  }

  /** One piece that does not convert makes the whole conversion fail. */
  lemma ParseAllFails(pieces: seq<string>, i: nat)
    requires i < |pieces| && ParseInt(pieces[i]).None?
    ensures ParseAll(pieces) == None
  {
  }

  /** Values that every piece converts to are the conversion's result. */
  lemma ParseAllSucceeds(pieces: seq<string>, values: seq<int>)
    requires |values| == |pieces|
    requires forall k :: 0 <= k < |pieces| ==> ParseInt(pieces[k]) == Some(values[k])
    ensures ParseAll(pieces) == Some(values)
  {
    assert ParseAll(pieces).value == values;
  }

  /** `list_from_string(string_list)`: strip the brackets, split on commas,
      convert every piece. */
  method ListFromString(s: string) returns (r: Option<seq<int>>)
    ensures r == ParseList(s)
  {
    var first := Strip(s, Brackets);
    var pieces := Split(first, ',');
    r := ConvertPieces(pieces);
  }

  function Digit(d: nat): (c: char)
    requires d < 10
    ensures IsDigit(c) && DigitValue(c) == d
  {
    (('0' as int) + d) as char
  }

  /** The decimal digits of n, most significant first, without leading zeros. */
  function ShowNat(n: nat): (s: string)
    ensures |s| > 0 && IsDigits(s)
  {
    if n < 10 then [Digit(n)] else ShowNat(n / 10) + [Digit(n % 10)]
  }

  /** Python's `str` of an int. */
  function ShowInt(n: int): (s: string)
    ensures |s| > 0
  {
    if n < 0 then "-" + ShowNat(-n) else ShowNat(n)
  }

  /** A list of ints written as `[a,b,c]`. */
  function Render(xs: seq<int>): string
    requires |xs| > 0
  {
    "[" + Join(ShowAll(xs), ',') + "]"
  }

  function ShowAll(xs: seq<int>): (r: seq<string>)
    ensures |r| == |xs| && forall i :: 0 <= i < |xs| ==> r[i] == ShowInt(xs[i])
  {
    seq(|xs|, i requires 0 <= i < |xs| => ShowInt(xs[i]))
  }

  /** Reading back the digits of n gives n. */
  lemma {:induction false} DigitsValueShowNat(n: nat)
    ensures DigitsValue(ShowNat(n)) == n
  {
    if n >= 10 {
      DigitsValueShowNat(n / 10);
      var s := ShowNat(n);
      assert s[..|s| - 1] == ShowNat(n / 10);
    }
  }

  /** `int(str(n)) == n`. */
  lemma ParseIntShowInt(n: int)
    ensures ParseInt(ShowInt(n)) == Some(n)
  {
    var s := ShowInt(n);
    var digits := ShowNat(if n < 0 then -n else n);
    DigitsValueShowNat(if n < 0 then -n else n);
    assert s[0] !in Whitespace && s[|s| - 1] !in Whitespace by {
      assert IsDigit(digits[|digits| - 1]);
      assert s[|s| - 1] == digits[|digits| - 1];
    }
    assert Strip(s, Whitespace) == s;
    if n < 0 {
      assert s[1..] == digits;
    }
  }

  /** Stripping a leading run of `chars` in front of text that does not
      start with one of them leaves exactly that text. */
  lemma {:induction false} StripLeadingRun(w: string, q: string, chars: set<char>)
    requires forall i :: 0 <= i < |w| ==> w[i] in chars
    requires q == [] || q[0] !in chars
    ensures StripLeading(w + q, chars) == q
  {
    if w != [] {
      assert (w + q)[1..] == w[1..] + q;
      StripLeadingRun(w[1..], q, chars);
    }
  }

  /** Stripping a trailing run of `chars` behind text that does not end
      with one of them leaves exactly that text. */
  lemma {:induction false} StripTrailingRun(q: string, w: string, chars: set<char>)
    requires forall i :: 0 <= i < |w| ==> w[i] in chars
    requires q == [] || q[|q| - 1] !in chars
    ensures StripTrailing(q + w, chars) == q
  {
    if w != [] {
      assert (q + w)[..|q + w| - 1] == q + w[..|w| - 1];
      StripTrailingRun(q, w[..|w| - 1], chars);
    }
  }

  /** `int` reads only what is left after stripping whitespace. */
  lemma StripSameParse(p: string, q: string)
    requires Strip(p, Whitespace) == Strip(q, Whitespace)
    ensures ParseInt(p) == ParseInt(q)
  {
  }

  /** `int` ignores whitespace around a literal: padding text that starts
      and ends with a non-whitespace character does not change its value or
      whether it converts. */
  lemma ParseIntPadded(front: string, p: string, back: string)
    requires forall i :: 0 <= i < |front| ==> front[i] in Whitespace
    requires forall i :: 0 <= i < |back| ==> back[i] in Whitespace
    requires |p| > 0 && p[0] !in Whitespace && p[|p| - 1] !in Whitespace
    ensures ParseInt(front + p + back) == ParseInt(p)
  {
    StripPadded(front, p, back, Whitespace);
    StripSameParse(front + p + back, p);
  }

  /** Stripping `chars` from text padded with runs of them gives back the
      text, when the text neither starts nor ends with one of them. */
  lemma StripPadded(front: string, p: string, back: string, chars: set<char>)
    requires forall i :: 0 <= i < |front| ==> front[i] in chars
    requires forall i :: 0 <= i < |back| ==> back[i] in chars
    requires |p| > 0 && p[0] !in chars && p[|p| - 1] !in chars
    ensures Strip(front + p + back, chars) == p
    ensures Strip(p, chars) == p
  {
    assert front + p + back == front + (p + back);
    StripLeadingRun(front, p + back, chars);
    StripTrailingRun(p, back, chars);
  }

  /** `int(' 7 ')` is 7. */
  lemma ParseIntPaddedExample()
    ensures ParseInt(" 7 ") == Some(7)
  {
    ParseIntPadded(" ", "7", " ");
    assert " " + "7" + " " == " 7 ";
    assert ParseInt("7") == Some(7) by {
      ParseIntShowInt(7);
      assert ShowInt(7) == "7";
    }
  }

  /** `int(' - 7')` raises: a sign must be followed directly by digits. */
  lemma ParseIntSpacedSignExample()
    ensures ParseInt(" - 7") == None
  {
    var t := "- 7";
    StripPadded(" ", t, [], Whitespace);
    assert " " + t + [] == " - 7";
    assert !IsDigits(t[1..]) && !IsDigits(t) by {
      assert t[1] == ' ' && t[0] == '-';
      assert t[1..][0] == ' ';
    }
  }

  /** The string form of an int holds no comma and starts and ends with a
      character that is not a bracket. */
  lemma ShowIntShape(n: int)
    ensures ',' !in ShowInt(n)
    ensures ShowInt(n)[0] !in Brackets && ShowInt(n)[|ShowInt(n)| - 1] !in Brackets
  {
    var digits := ShowNat(if n < 0 then -n else n);
    assert IsDigit(digits[|digits| - 1]);
    assert forall i :: 0 <= i < |digits| ==> IsDigit(digits[i]);
  }

  /** Splitting undoes joining, when no piece holds the separator. */
  lemma {:induction false} SplitJoin(pieces: seq<string>, sep: char)
    requires |pieces| > 0
    requires forall i :: 0 <= i < |pieces| ==> sep !in pieces[i]
    ensures Split(Join(pieces, sep), sep) == pieces
    decreases |pieces|
  {
    if |pieces| == 1 {
      SplitNoSep(pieces[0], sep);
    } else {
      SplitJoin(pieces[1..], sep);
      SplitAfterPiece(pieces[0], Join(pieces[1..], sep), sep);
      assert [pieces[0]] + pieces[1..] == pieces;
    }
  }

  /** A string without the separator splits into itself. */
  lemma {:induction false} SplitNoSep(p: string, sep: char)
    requires sep !in p
    ensures Split(p, sep) == [p]
    decreases |p|
  {
    if p != [] {
      SplitNoSep(p[1..], sep);
      assert [p[0]] + p[1..] == p;
    }
  }

  /** A piece without the separator followed by the separator splits off as
      the first piece. */
  lemma {:induction false} SplitAfterPiece(p: string, rest: string, sep: char)
    requires sep !in p
    ensures Split(p + [sep] + rest, sep) == [p] + Split(rest, sep)
    decreases |p|
  {
    if p == [] {
      assert p + [sep] + rest == [sep] + rest;
      assert ([sep] + rest)[1..] == rest;
    } else {
      var s := p + [sep] + rest;
      assert s[0] == p[0] != sep;
      assert s[1..] == p[1..] + [sep] + rest;
      SplitAfterPiece(p[1..], rest, sep);
      var tail := Split(s[1..], sep);
      assert tail[0] == p[1..] && tail[1..] == Split(rest, sep);
      assert [p[0]] + p[1..] == p;
    }
  }

  /** The joined string starts with the first piece's first character and
      ends with the last piece's last character. */
  lemma {:induction false} JoinEnds(pieces: seq<string>, sep: char)
    requires |pieces| > 0 && forall i :: 0 <= i < |pieces| ==> |pieces[i]| > 0
    ensures var j := Join(pieces, sep);
      |j| > 0 && j[0] == pieces[0][0]
      && j[|j| - 1] == pieces[|pieces| - 1][|pieces[|pieces| - 1]| - 1]
    decreases |pieces|
  {
    if |pieces| > 1 {
      JoinEnds(pieces[1..], sep);
    }
  }

  /** Stripping brackets from `[body]` gives `body` back when the body
      neither starts nor ends with a bracket. */
  lemma StripBrackets(body: string)
    requires |body| > 0 && body[0] !in Brackets && body[|body| - 1] !in Brackets
    ensures Strip("[" + body + "]", Brackets) == body
  {
    var s := "[" + body + "]";
    assert s[1..] == body + "]";
    assert StripLeading(s, Brackets) == body + "]";
    assert (body + "]")[..|body|] == body;
  }

  /** Reading back a written list gives the list: the round trip
      `list_from_string('[' + ','.join(map(str, xs)) + ']') == xs`. */
  lemma ParseListRender(xs: seq<int>)
    requires |xs| > 0
    ensures ParseList(Render(xs)) == Some(xs)
  {
    PiecesOfRender(xs);
    var shown := ShowAll(xs);
    forall i | 0 <= i < |xs| ensures ParseInt(shown[i]) == Some(xs[i]) {
      ParseIntShowInt(xs[i]);
    }
    assert ParseAll(shown).value == xs;
  }

  /** The pieces of a written list are the written elements. */
  lemma PiecesOfRender(xs: seq<int>)
    requires |xs| > 0
    ensures Pieces(Render(xs)) == ShowAll(xs)
  {
    var shown := ShowAll(xs);
    forall i | 0 <= i < |xs| ensures ',' !in shown[i] && |shown[i]| > 0 {
      ShowIntShape(xs[i]);
    }
    ShowIntShape(xs[0]);
    ShowIntShape(xs[|xs| - 1]);
    JoinEnds(shown, ',');
    StripBrackets(Join(shown, ','));
    SplitJoin(shown, ',');
  }

  /** `[1,2,3]` is how the list [1, 2, 3] is written. */
  lemma RenderExample()
    ensures Render([1, 2, 3]) == "[1,2,3]"
  {
    assert ShowInt(1) == "1" && ShowInt(2) == "2" && ShowInt(3) == "3" by {
      assert Digit(1) == '1' && Digit(2) == '2' && Digit(3) == '3';
    }
    var shown := ShowAll([1, 2, 3]);
    assert shown == ["1", "2", "3"];
    assert Join(shown[2..], ',') == "3";
    assert Join(shown[1..], ',') == "2,3";
  }

  /** "[1,2,3]" reads as [1, 2, 3]. */
  lemma ParseListExample()
    ensures ParseList("[1,2,3]") == Some([1, 2, 3])
  {
    RenderExample();
    ParseListRender([1, 2, 3]);
  }

  /** `'[]'.strip('[]').split(',')` is `['']`. */
  lemma PiecesOfEmptyList()
    ensures Pieces("[]") == [""]
  {
    assert StripLeading("[]", Brackets) == "";
  }

  /** `'1,,2'.strip('[]').split(',')` has an empty second piece. */
  lemma PiecesWithEmptyPiece()
    ensures |Pieces("1,,2")| > 1 && Pieces("1,,2")[1] == ""
  {
    PiecesEmptyMiddle("1", "2");
    assert "1" + ",," + "2" == "1,,2";
  }

  /** Two adjacent commas between other text make an empty piece. */
  lemma PiecesEmptyMiddle(a: string, b: string)
    requires |a| > 0 && |b| > 0 && ',' !in a && ',' !in b
    requires a[0] !in Brackets && b[|b| - 1] !in Brackets
    ensures var ps := Pieces(a + ",," + b); |ps| > 1 && ps[1] == ""
  {
    var s, rest := a + ",," + b, "," + b;
    assert Strip(s, Brackets) == s by {
      StripPadded([], s, [], Brackets);
      assert [] + s + [] == s;
    }
    assert Split(s, ',') == [a] + Split(rest, ',') by {
      assert s == a + [','] + rest;
      SplitAfterPiece(a, rest, ',');
    }
    assert Split(rest, ',') == [""] + Split(b, ',') by {
      assert rest == "" + [','] + b;
      SplitAfterPiece("", b, ',');
    }
  }

  /** An empty list, or an empty piece between two commas, is not a list
      of integers: `int('')` raises, so the result is `None`. */
  lemma ParseListEmptyPiece()
    ensures ParseList("[]") == None
    ensures ParseList("1,,2") == None
  {
    assert ParseInt("") == None by {
      assert StripLeading("", Whitespace) == "";
    }
    assert ParseList("[]") == None by {
      PiecesOfEmptyList();
      assert !ParseInt(Pieces("[]")[0]).Some?;
    }
    assert ParseList("1,,2") == None by {
      PiecesWithEmptyPiece();
      assert !ParseInt(Pieces("1,,2")[1]).Some?;
    }
  }
}
