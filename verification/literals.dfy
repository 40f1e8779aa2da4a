/**
 * The JavaScript values a program mentions (`Value` terms) and the way the engine prints
 * them (`Value.prototype.toString`). Numbers are integers here; strings are `seq<char>`.
 */
module Literals {

  /** A JavaScript value held by a `Value` term. */
  datatype Literal = Str(s: string) | Num(n: int) | List(items: seq<Literal>) | Undefined

  predicate IsDigit(c: char) {
    '0' <= c <= '9'
  }

  function Digit(d: nat): (c: char)
    requires d < 10
    ensures IsDigit(c)
  {
    (48 + d) as char
  }

  /** Decimal notation of a natural number, as `Number.prototype.toString` prints it. */
  function NatToString(n: nat): (r: string)
    ensures |r| > 0
    ensures forall i | 0 <= i < |r| :: IsDigit(r[i])
    decreases n
  {
    if n < 10 then [Digit(n)] else NatToString(n / 10) + [Digit(n % 10)]
  }

  /** Reads a string of decimal digits back as a number. */
  function ParseNat(s: string): nat
    decreases |s|
  {
    if s == [] then 0
    else
      var d := s[|s| - 1] as int - 48;
      ParseNat(s[..|s| - 1]) * 10 + (if 0 <= d then d else 0)
  }

  /** Printing a number and reading it back gives the number. */
  lemma {:induction false} ParseNatToString(n: nat)
    ensures ParseNat(NatToString(n)) == n
    decreases n
  {
    if n >= 10 {
      var s := NatToString(n);
      assert s[..|s| - 1] == NatToString(n / 10);
      ParseNatToString(n / 10);
    }
  }

  /** Distinct numbers print differently. */
  lemma NatToStringInjective(a: nat, b: nat)
    ensures NatToString(a) == NatToString(b) <==> a == b
  {
    if NatToString(a) == NatToString(b) {
      ParseNatToString(a);
      ParseNatToString(b);
    }
  }

  function IntToString(n: int): string {
    if n < 0 then "-" + NatToString(-n) else NatToString(n)
  }

  predicate IsWordChar(c: char) {
    'a' <= c <= 'z' || 'A' <= c <= 'Z' || '0' <= c <= '9' || c == ' '
  }

  /**
   * A string printed without quotes: it matches `^[a-z][a-zA-Z0-9 ]*$` and is not the
   * word `undefined`.
   */
  predicate Plain(s: string) {
    |s| > 0 && 'a' <= s[0] <= 'z' && (forall i | 1 <= i < |s| :: IsWordChar(s[i]))
    && s != "undefined"
  }

  /** The parts joined with commas between them, as an array prints. */
  function Join(parts: seq<string>): string
    decreases |parts|
  {
    if |parts| == 0 then ""
    else if |parts| == 1 then parts[0]
    else parts[0] + "," + Join(parts[1..])
  }

  /** `String(x)` for an array element: `undefined` prints as the empty string. */
  function ElemString(l: Literal): string
    decreases l
  {
    match l
    case Str(s) => s
    case Num(n) => IntToString(n)
    case List(xs) => Join(seq(|xs|, i requires 0 <= i < |xs| => ElemString(xs[i])))
    case Undefined => ""
  }

  /** `Value.prototype.toString`: strings that are not plain are quoted. */
  function Render(l: Literal): string {
    match l
    case Undefined => "undefined"
    case Str(s) => if Plain(s) then s else "\"" + s + "\""
    case _ => ElemString(l)
  }

  /** A string or a number. */
  predicate Scalar(l: Literal) {
    l.Str? || l.Num?
  }

  /** A number prints with a leading minus sign exactly when it is negative. */
  lemma IntSign(n: int)
    ensures |IntToString(n)| > 0
    ensures IntToString(n)[0] == '-' <==> n < 0
  {
    if n >= 0 {
      assert IsDigit(NatToString(n)[0]);
    }
  }

  /** Distinct integers print differently. */
  lemma IntToStringInjective(a: int, b: int)
    ensures IntToString(a) == IntToString(b) <==> a == b
  {
    if IntToString(a) == IntToString(b) {
      IntSign(a);
      IntSign(b);
      if a < 0 {
        assert NatToString(-a) == IntToString(a)[1..] == NatToString(-b);
        NatToStringInjective(-a, -b);
      } else {
        NatToStringInjective(a, b);
      }
    }
  }

  /** A string prints starting with a letter or a quote, a number with a minus sign or a digit. */
  lemma RenderLead(l: Literal)
    requires Scalar(l)
    ensures |Render(l)| > 0
    ensures l.Str? <==> !(Render(l)[0] == '-' || IsDigit(Render(l)[0]))
  {
    if l.Num? {
      IntSign(l.n);
      if l.n >= 0 {
        assert IsDigit(NatToString(l.n)[0]);
      }
    }
  }

  /** Two strings or numbers print alike exactly when they are equal. */
  lemma RenderScalarsInjective(a: Literal, b: Literal)
    requires Scalar(a) && Scalar(b)
    ensures Render(a) == Render(b) <==> a == b
  {
    if Render(a) == Render(b) {
      RenderLead(a);
      RenderLead(b);
      if a.Str? {
        RenderStringsInjective(a.s, b.s);
      } else {
        IntToStringInjective(a.n, b.n);
      }
    }
  }

  /** Two strings print alike exactly when they are equal: quoting never makes a clash. */
  lemma RenderStringsInjective(a: string, b: string)
    ensures Render(Str(a)) == Render(Str(b)) <==> a == b
  {
    var ra, rb := Render(Str(a)), Render(Str(b));
    if ra == rb {
      if Plain(a) {
        assert ra[0] != '"';
      } else {
        assert rb[0] == '"';
        assert !Plain(b);
        assert a == ra[1..|ra| - 1] == rb[1..|rb| - 1] == b;
      }
    }
  }
}
