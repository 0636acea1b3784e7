/** The text of a road edge. Edges of the road graph are `(u, v, key)` tuples of OSM ids;
    the trajectory files store them as Python writes a tuple, `str((u, v, key))`, and
    `utils.py` reads them back with `ast.literal_eval`. */
module EdgeText {
  import opened Wrappers
  import opened Timestamps

  /** An edge of the road graph: its two end nodes and the key telling parallel edges apart. */
  datatype EdgeKey = EdgeKey(u: nat, v: nat, key: nat)

  /** The number of decimal digits of `n`. */
  function Width(n: nat): (w: nat)
    ensures w >= 1
  {
    if n < 10 then 1 else 1 + Width(n / 10)
  }

  lemma {:induction false} WidthBounds(n: nat)
    ensures n < Pow10(Width(n))
    ensures Width(n) > 1 ==> Pow10(Width(n) - 1) <= n
  {
    if n >= 10 {
      WidthBounds(n / 10);
    }
  }

  /** `str(n)`: decimal digits, no leading zero. */
  function NatText(n: nat): (s: string)
    ensures |s| == Width(n)
    ensures forall i :: 0 <= i < |s| ==> IsDigit(s[i])
  {
    Padded(n, Width(n))
  }

  /** A canonical numeral: digits only, and no leading zero unless it is `0` itself. */
  predicate Numeral(s: string) {
    && |s| > 0
    && (forall i :: 0 <= i < |s| ==> IsDigit(s[i]))
    && (s[0] == '0' ==> |s| == 1)
  }

  /** `int(s)` on a canonical numeral, and nothing on any other text. */
  function ParseNat(s: string): (r: Option<nat>)
    ensures r.Some? <==> Numeral(s)
  {
    if Numeral(s) then Some(DigitsValue(s)) else None
  }

  lemma NatTextNumeral(n: nat)
    ensures Numeral(NatText(n))
  {
    var s := NatText(n);
    if s[0] == '0' && |s| > 1 {
      WidthBounds(n);
      PaddedLeadingZero(n, Width(n));
    }
  }

  /** A width-`w` padding whose first digit is `0` holds a number below `10^(w-1)`. */
  lemma {:induction false} PaddedLeadingZero(n: nat, w: nat)
    requires w > 1 && n < Pow10(w) && Padded(n, w)[0] == '0'
    ensures n < Pow10(w - 1)
  {
    var s := Padded(n, w);
    assert s == Padded(n / 10, w - 1) + [DigitChar(n % 10)];
    if w == 2 {
      assert Padded(n / 10, 1)[0] == DigitChar(n / 10 % 10);
      assert Padded(n / 10, 1) == Padded(n / 10 / 10, 0) + [DigitChar(n / 10 % 10)];
    } else {
      assert Padded(n / 10, w - 1)[0] == '0';
      PaddedLeadingZero(n / 10, w - 1);
    }
  }

  /** A numeral's value, written out, is the numeral again. */
  lemma {:induction false} LeadingDigitBound(s: string)
    requires Numeral(s) && (s[0] != '0' || |s| > 1) && |s| > 1
    ensures DigitsValue(s) >= Pow10(|s| - 1)
  {
    var init := s[..|s| - 1];
    assert init[0] == s[0];
    if |init| > 1 {
      LeadingDigitBound(init);
    } else {
      assert DigitsValue(init) == s[0] as int - '0' as int;
    }
  }

  lemma {:induction false} WidthOf(n: nat, w: nat)
    requires w >= 1 && n < Pow10(w) && (w > 1 ==> Pow10(w - 1) <= n)
    ensures Width(n) == w
  {
    if w > 1 {
      assert Pow10(w - 1) == 10 * Pow10(w - 2);
      WidthOf(n / 10, w - 1);
    }
  }

  /** `int(str(n)) == n`, and `str(int(s)) == s` for a canonical numeral. */
  lemma NatTextRoundTrip(n: nat, s: string)
    ensures ParseNat(NatText(n)) == Some(n)
    ensures Numeral(s) ==> NatText(ParseNat(s).value) == s
  {
    NatTextNumeral(n);
    WidthBounds(n);
    DigitsValuePadded(n, Width(n));
    if Numeral(s) {
      var v := DigitsValue(s);
      PaddedDigitsValue(s);
      if |s| > 1 {
        LeadingDigitBound(s);
      }
      WidthOf(v, |s|);
    }
  }

  /** `str((u, v, key))`. */
  function EdgeText(e: EdgeKey): string
  {
    "(" + (NatText(e.u) + (", " + (NatText(e.v) + (", " + NatText(e.key))))) + ")"
  }

  /** The position of the first `c` in `s`, or `|s|` when there is none. */
  function IndexOf(s: string, c: char): (i: nat)
    ensures i <= |s|
    ensures i < |s| ==> s[i] == c
    ensures forall j :: 0 <= j < i ==> s[j] != c
  {
    if s == [] then 0 else if s[0] == c then 0 else 1 + IndexOf(s[1..], c)
  }

  lemma IndexOfAfter(a: string, b: string, c: char)
    requires forall j :: 0 <= j < |a| ==> a[j] != c
    requires |b| > 0 && b[0] == c
    ensures IndexOf(a + b, c) == |a|
  {
    assert (a + b)[|a|] == c;
    assert forall j :: 0 <= j < |a| ==> (a + b)[j] == a[j];
  }

  /** Splits `s` at its first comma followed by a space. */
  function SplitField(s: string): Option<(string, string)>
  {
    var i := IndexOf(s, ',');
    if i + 1 < |s| && s[i + 1] == ' ' then Some((s[..i], s[i + 2..])) else None
  }

  /** `ast.literal_eval` on the text of an edge: the tuple back, or `ValueError` on any
      text that is not of that form. */
  function LiteralEval(s: string): Result<EdgeKey>
  {
    if |s| < 2 || s[0] != '(' || s[|s| - 1] != ')' then Err(ValueError)
    else
      match SplitField(s[1..|s| - 1])
      case None => Err(ValueError)
      case Some((a, rest)) =>
        match SplitField(rest)
        case None => Err(ValueError)
        case Some((b, c)) =>
          match (ParseNat(a), ParseNat(b), ParseNat(c))
          case (Some(u), Some(v), Some(key)) => Ok(EdgeKey(u, v, key))
          case _ => Err(ValueError)
  }

  lemma SplitFieldOf(a: string, b: string)
    requires forall j :: 0 <= j < |a| ==> IsDigit(a[j])
    ensures SplitField(a + (", " + b)) == Some((a, b))
  {
    var s := a + (", " + b);
    IndexOfAfter(a, ", " + b, ',');
    assert s[..|a|] == a;
    assert s[|a| + 2..] == b;
  }

  /** Reading an edge's text gives the edge back. */
  lemma LiteralEvalEdgeText(e: EdgeKey)
    ensures LiteralEval(EdgeText(e)) == Ok(e)
  {
    NatTextRoundTrip(e.u, "");
    NatTextRoundTrip(e.v, "");
    NatTextRoundTrip(e.key, "");
    LiteralEvalParts(NatText(e.u), NatText(e.v), NatText(e.key));
  }

  /** Three canonical numerals between parentheses, separated by `, `, read as a tuple. */
  lemma LiteralEvalParts(a: string, b: string, c: string)
    requires Numeral(a) && Numeral(b) && Numeral(c)
    ensures LiteralEval("(" + (a + (", " + (b + (", " + c)))) + ")")
      == Ok(EdgeKey(ParseNat(a).value, ParseNat(b).value, ParseNat(c).value))
  {
    var rest := b + (", " + c);
    var inner := a + (", " + rest);
    Parenthesised(inner);
    SplitFieldOf(a, rest);
    SplitFieldOf(b, c);
  }

  /** A split puts back together into the text it came from. */
  lemma SplitFieldJoin(s: string)
    requires SplitField(s).Some?
    ensures s == SplitField(s).value.0 + (", " + SplitField(s).value.1)
  {
    var i := IndexOf(s, ',');
    assert s == s[..i] + (", " + s[i + 2..]);
  }

  /** Only the text of an edge reads as that edge: the text form is canonical. */
  lemma LiteralEvalCanonical(s: string)
    requires LiteralEval(s).Ok?
    ensures EdgeText(LiteralEval(s).value) == s
  {
    var inner := s[1..|s| - 1];
    var (a, rest) := SplitField(inner).value;
    var (b, c) := SplitField(rest).value;
    SplitFieldJoin(inner);
    SplitFieldJoin(rest);
    var e := LiteralEval(s).value;
    assert e == EdgeKey(ParseNat(a).value, ParseNat(b).value, ParseNat(c).value);
    NatTextRoundTrip(0, a);
    NatTextRoundTrip(0, b);
    NatTextRoundTrip(0, c);
    assert NatText(e.u) == a && NatText(e.v) == b && NatText(e.key) == c;
    Parenthesised(inner);
    Unwrapped(s);
  }

  lemma Parenthesised(x: string)
    ensures |"(" + x + ")"| == |x| + 2
    ensures ("(" + x + ")")[1..|x| + 1] == x
  {
  }

  lemma Unwrapped(s: string)
    requires |s| >= 2 && s[0] == '(' && s[|s| - 1] == ')'
    ensures s == "(" + s[1..|s| - 1] + ")"
  {
  }
}
