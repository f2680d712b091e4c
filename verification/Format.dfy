/**
 `vsprintf` of stdlib/vsprintf.c: a format is parsed into pieces, each piece takes at most one
 argument and renders on its own.  Formats are C strings: the position behind the last
 character reads as NUL.
 */
module Format {
  import opened Options
  import opened Numerals

  predicate CString(s: string)
  {
    forall i :: 0 <= i < |s| ==> s[i] != '\0'
  }

  /** The characters of a C string before its NUL, as `strlen` counts them. */
  type CText = s: string | CString(s)

  /** An argument: a number, or a C string up to its NUL. */
  datatype Arg = IntArg(n: Word64) | StrArg(s: CText)

  /** What a format consists of; `Echo` is a conversion that is not known or %%, `Starred` a
      directive with `*`, `CutOff` a directive that the end of the format interrupts. */
  datatype Piece =
    | Literal(c: char)
    | Numeral(base: nat, width: int, precision: int, f: Flags)
    | Str(width: int, precision: int, left: bool)
    | Echo(c: char)
    | Starred
    | CutOff

  // ---- parsing --------------------------------------------------------------------------------

  function At(fmt: string, i: nat): char
  {
    if i < |fmt| then fmt[i] else '\0'
  }

  predicate IsDigit(c: char)
  {
    '0' <= c <= '9'
  }

  predicate IsFlag(c: char)
  {
    c == '-' || c == '+' || c == ' ' || c == '#' || c == '0'
  }

  const NO_FLAGS: Flags := Flags(false, false, false, false, false, false, false)

  function WithFlag(f: Flags, c: char): Flags
  {
    if c == '-' then f.(left := true)
    else if c == '+' then f.(plus := true)
    else if c == ' ' then f.(space := true)
    else if c == '#' then f.(special := true)
    else f.(zeropad := true)
  }

  function SkipFlags(fmt: string, i: nat, f: Flags): (r: (Flags, nat))
    requires i <= |fmt|
    ensures i <= r.1 <= |fmt| && !IsFlag(At(fmt, r.1))
    decreases |fmt| - i
  {
    if IsFlag(At(fmt, i)) then SkipFlags(fmt, i + 1, WithFlag(f, fmt[i])) else (f, i)
  }

  /** `skip_atoi` */
  function SkipNumber(fmt: string, i: nat, n: nat): (r: (nat, nat))
    requires i <= |fmt|
    ensures i <= r.1 <= |fmt| && !IsDigit(At(fmt, r.1))
    decreases |fmt| - i
  {
    if IsDigit(At(fmt, i)) then SkipNumber(fmt, i + 1, n * 10 + (fmt[i] as nat - '0' as nat)) else (n, i)
  }

  /** A directive up to its conversion character at `at`; `star`: an argument was taken for `*`. */
  datatype Spec = Spec(f: Flags, width: int, precision: int, star: bool, at: nat)

  /** The field width, -1 if there is none. */
  function Width(fmt: string, i: nat): (r: (int, nat))
    requires i <= |fmt|
    ensures i <= r.1 <= |fmt|
  {
    if IsDigit(At(fmt, i)) then SkipNumber(fmt, i, 0) else (-1, i)
  }

  /** The precision, -1 if there is none, 0 if only the dot is there. */
  function Precision(fmt: string, i: nat): (r: (int, nat))
    requires i <= |fmt|
    ensures i <= r.1 <= |fmt|
  {
    if At(fmt, i) != '.' then (-1, i)
    else if IsDigit(At(fmt, i + 1)) then SkipNumber(fmt, i + 1, 0)
    else (0, i + 1)
  }

  predicate IsQualifier(c: char)
  {
    c == 'h' || c == 'l' || c == 'L'
  }

  /** The directive whose flags start at i. */
  function SpecOf(fmt: string, i: nat): (r: Spec)
    requires i <= |fmt|
    ensures i <= r.at <= |fmt|
  {
    var (f, j) := SkipFlags(fmt, i, NO_FLAGS);
    var (width, k) := Width(fmt, j);
    var (precision, m) := Precision(fmt, k);
    var star := At(fmt, j) == '*' || (At(fmt, k) == '.' && At(fmt, k + 1) == '*');
    Spec(f, width, precision, star, if IsQualifier(At(fmt, m)) then m + 1 else m)
  }

  /** The piece that a directive with conversion character c stands for. */
  function PieceOf(d: Spec, c: char): Piece
  {
    match c
    case 's' => Str(d.width, d.precision, d.f.left)
    case 'x' => Numeral(16, d.width, d.precision, d.f.(small := true))
    case 'X' => Numeral(16, d.width, d.precision, d.f)
    case 'd' => Numeral(10, d.width, d.precision, d.f.(sign := true))
    case 'i' => Numeral(10, d.width, d.precision, d.f.(sign := true))
    case 'u' => Numeral(10, d.width, d.precision, d.f)
    case '\0' => CutOff
    case _ => if d.star then Starred else Echo(c)
  }

  /** The pieces from position i on. */
  function Parse(fmt: string, i: nat): seq<Piece>
    requires i <= |fmt|
    decreases |fmt| - i
  {
    if i == |fmt| then []
    else if fmt[i] != '%' then [Literal(fmt[i])] + Parse(fmt, i + 1)
    else
      var d := SpecOf(fmt, i + 1);
      [PieceOf(d, At(fmt, d.at))] + if d.at < |fmt| then Parse(fmt, d.at + 1) else []
  }

  // ---- rendering ------------------------------------------------------------------------------

  /** A string argument: cut to the precision, padded with blanks to the width. */
  function PaddedString(s: string, width: int, precision: int, left: bool): (r: string)
    ensures |r| == Max(width, if 0 <= precision < |s| then precision else |s|)
  {
    var t := if 0 <= precision < |s| then s[..precision] else s;
    if left then t + Repeat(' ', width - |t|) else Repeat(' ', width - |t|) + t
  }

  /** Arguments that a piece takes. */
  function Uses(p: Piece): nat
  {
    if p.Numeral? || p.Str? || p.Starred? then 1 else 0
  }

  /** The text of a piece, or None when its argument is missing or of the wrong kind. */
  function PieceText(p: Piece, args: seq<Arg>): Option<string>
  {
    match p
    case Literal(c) => Some([c])
    case Echo(c) => Some(if c == '%' then "%" else ['%', c])
    case CutOff => Some("%")
    case Starred => if args != [] && args[0].IntArg? then Some("%*") else None
    case Numeral(base, width, precision, f) =>
      if args != [] && args[0].IntArg? && 4 <= base <= 36 then Some(Rendered(args[0].n, base, width, precision, f))
      else None
    case Str(width, precision, left) =>
      if args != [] && args[0].StrArg? then Some(PaddedString(args[0].s, width, precision, left)) else None
  }

  function Joined(a: Option<string>, b: Option<string>): Option<string>
  {
    if a.Some? && b.Some? then Some(a.value + b.value) else None
  }

  function After(args: seq<Arg>, k: nat): seq<Arg>
  {
    if k <= |args| then args[k..] else []
  }

  function Render(ps: seq<Piece>, args: seq<Arg>): Option<string>
    decreases |ps|
  {
    if ps == [] then Some("") else Joined(PieceText(ps[0], args), Render(ps[1..], After(args, Uses(ps[0]))))
  }

  /** What `vsprintf(buf, fmt, args)` writes before the NUL. */
  function Formatted(fmt: string, args: seq<Arg>): Option<string>
  {
    Render(Parse(fmt, 0), args)
  }

  // ---- putting formats together -----------------------------------------------------------------

  function Needs(ps: seq<Piece>): nat
  {
    if ps == [] then 0 else Uses(ps[0]) + Needs(ps[1..])
  }

  /** Pieces render independently. */
  lemma {:induction false} RenderConcat(p: seq<Piece>, q: seq<Piece>, a: seq<Arg>, b: seq<Arg>)
    requires |a| == Needs(p)
    ensures Render(p + q, a + b) == Joined(Render(p, a), Render(q, b))
    decreases |p|
  {
    hide PieceText, Render, Joined;
    RenderStep(p, a);
    RenderStep(p + q, a + b);
    if p == [] {
      assert p + q == q && a + b == b;
      JoinedNothing(Render(q, b));
    } else {
      var u := Uses(p[0]);
      assert (p + q)[0] == p[0] && (p + q)[1..] == p[1..] + q;
      assert (a + b)[u..] == a[u..] + b;
      SameText(p[0], a + b, a);
      RenderConcat(p[1..], q, a[u..], b);
      JoinedAssociates(PieceText(p[0], a), Render(p[1..], a[u..]), Render(q, b));
    }
  }

  lemma RenderStep(ps: seq<Piece>, args: seq<Arg>)
    ensures ps == [] ==> Render(ps, args) == Some("")
    ensures ps != [] ==> Render(ps, args) == Joined(PieceText(ps[0], args), Render(ps[1..], After(args, Uses(ps[0]))))
  {
    hide PieceText;
  }

  lemma JoinedNothing(x: Option<string>)
    ensures Joined(Some(""), x) == x
  {
    assert x.Some? ==> "" + x.value == x.value;
  }

  lemma JoinedAssociates(x: Option<string>, y: Option<string>, z: Option<string>)
    ensures Joined(Joined(x, y), z) == Joined(x, Joined(y, z))
  {
    if x.Some? && y.Some? && z.Some? {
      assert x.value + (y.value + z.value) == (x.value + y.value) + z.value;
    }
  }

  lemma SameText(p: Piece, a: seq<Arg>, b: seq<Arg>)
    requires Uses(p) == 1 ==> a != [] && b != [] && a[0] == b[0]
    ensures PieceText(p, a) == PieceText(p, b)
  {
  }

  // ---- the scanners see only what they pass -------------------------------------------------------

  lemma {:induction false} FlagsConcat(f: string, g: string, i: nat, x: Flags)
    requires i <= |f| && SkipFlags(f, i, x).1 < |f|
    ensures SkipFlags(f + g, i, x) == SkipFlags(f, i, x)
    decreases |f| - i
  {
    assert (f + g)[i] == f[i];
    if IsFlag(At(f, i)) {
      FlagsConcat(f, g, i + 1, WithFlag(x, f[i]));
    }
  }

  lemma {:induction false} NumberConcat(f: string, g: string, i: nat, n: nat)
    requires i <= |f| && SkipNumber(f, i, n).1 < |f|
    ensures SkipNumber(f + g, i, n) == SkipNumber(f, i, n)
    decreases |f| - i
  {
    assert (f + g)[i] == f[i];
    if IsDigit(At(f, i)) {
      NumberConcat(f, g, i + 1, n * 10 + (f[i] as nat - '0' as nat));
    }
  }

  /** A directive that ends inside f is the same in f + g. */
  lemma SpecConcat(f: string, g: string, i: nat)
    requires i <= |f| && SpecOf(f, i).at < |f|
    ensures SpecOf(f + g, i) == SpecOf(f, i)
  {
    hide SkipFlags, SkipNumber;
    var j := SkipFlags(f, i, NO_FLAGS).1;
    var k := Width(f, j).1;
    FlagsConcat(f, g, i, NO_FLAGS);
    if IsDigit(At(f, j)) {
      NumberConcat(f, g, j, 0);
    }
    if At(f, k) == '.' && IsDigit(At(f, k + 1)) {
      NumberConcat(f, g, k + 1, 0);
    }
  }

  lemma {:induction false} FlagsShift(f: string, g: string, i: nat, x: Flags)
    requires i <= |g|
    ensures var r := SkipFlags(g, i, x); SkipFlags(f + g, |f| + i, x) == (r.0, |f| + r.1)
    decreases |g| - i
  {
    assert At(f + g, |f| + i) == At(g, i);
    if IsFlag(At(g, i)) {
      FlagsShift(f, g, i + 1, WithFlag(x, g[i]));
    }
  }

  lemma {:induction false} NumberShift(f: string, g: string, i: nat, n: nat)
    requires i <= |g|
    ensures var r := SkipNumber(g, i, n); SkipNumber(f + g, |f| + i, n) == (r.0, |f| + r.1)
    decreases |g| - i
  {
    assert At(f + g, |f| + i) == At(g, i);
    if IsDigit(At(g, i)) {
      NumberShift(f, g, i + 1, n * 10 + (g[i] as nat - '0' as nat));
    }
  }

  lemma AtShift(f: string, g: string, i: nat)
    ensures At(f + g, |f| + i) == At(g, i)
  {
  }

  lemma SpecShift(f: string, g: string, i: nat)
    requires i <= |g|
    ensures SpecOf(f + g, |f| + i) == SpecOf(g, i).(at := |f| + SpecOf(g, i).at)
  {
    hide SkipFlags, SkipNumber, At;
    var j := SkipFlags(g, i, NO_FLAGS).1;
    FlagsShift(f, g, i, NO_FLAGS);
    AtShift(f, g, j);
    NumberShift(f, g, j, 0);
    var k := Width(g, j).1;
    AtShift(f, g, k);
    AtShift(f, g, k + 1);
    if k < |g| {
      NumberShift(f, g, k + 1, 0);
    }
    EndIsNul(g, k);
    var m := Precision(g, k).1;
    AtShift(f, g, m);
  }

  lemma EndIsNul(g: string, k: nat)
    requires k <= |g|
    ensures k == |g| ==> At(g, k) == '\0'
  {
  }

  lemma ParseStep(fmt: string, i: nat)
    requires i <= |fmt|
    ensures i == |fmt| ==> Parse(fmt, i) == []
    ensures i < |fmt| && fmt[i] != '%' ==> Parse(fmt, i) == [Literal(fmt[i])] + Parse(fmt, i + 1)
    ensures i < |fmt| && fmt[i] == '%' ==>
              var d := SpecOf(fmt, i + 1);
              Parse(fmt, i) == [PieceOf(d, At(fmt, d.at))] + if d.at < |fmt| then Parse(fmt, d.at + 1) else []
  {
    hide SpecOf, PieceOf, At;
  }

  lemma SamePiece(d: Spec, at: nat, c: char)
    ensures PieceOf(d.(at := at), c) == PieceOf(d, c)
  {
  }

  lemma {:induction false} ParseShift(f: string, g: string, i: nat)
    requires i <= |g|
    ensures Parse(f + g, |f| + i) == Parse(g, i)
    decreases |g| - i
  {
    hide SpecOf, PieceOf, At, Parse;
    ParseStep(g, i);
    ParseStep(f + g, |f| + i);
    if i < |g| {
      assert (f + g)[|f| + i] == g[i];
      if g[i] != '%' {
        ParseShift(f, g, i + 1);
      } else {
        SpecShift(f, g, i + 1);
        var d := SpecOf(g, i + 1);
        AtShift(f, g, d.at);
        SamePiece(d, |f| + d.at, At(g, d.at));
        if d.at < |g| {
          ParseShift(f, g, d.at + 1);
        }
      }
    }
  }

  /** Parsing f + g gives the pieces of f and of g, if no directive is cut off by the end of f. */
  lemma {:induction false} ParseJoin(f: string, g: string, i: nat)
    requires i <= |f| && CString(f) && CutOff !in Parse(f, i)
    ensures Parse(f + g, i) == Parse(f, i) + Parse(g, 0)
    decreases |f| - i
  {
    hide SpecOf, PieceOf, Parse;
    ParseStep(f, i);
    if i == |f| {
      ParseShift(f, g, 0);
      assert [] + Parse(g, 0) == Parse(g, 0);
    } else {
      ParseStep(f + g, i);
      assert (f + g)[i] == f[i];
      if f[i] != '%' {
        ParseJoin(f, g, i + 1);
        assert [Literal(f[i])] + (Parse(f, i + 1) + Parse(g, 0)) == Parse(f, i) + Parse(g, 0);
      } else {
        var d := SpecOf(f, i + 1);
        var p := PieceOf(d, At(f, d.at));
        assert p in Parse(f, i);
        NotCut(f, d);
        SpecConcat(f, g, i + 1);
        assert At(f + g, d.at) == At(f, d.at);
        ParseJoin(f, g, d.at + 1);
        assert [p] + (Parse(f, d.at + 1) + Parse(g, 0)) == Parse(f, i) + Parse(g, 0);
      }
    }
  }

  lemma NotCut(f: string, d: Spec)
    requires CString(f) && d.at <= |f|
    ensures PieceOf(d, At(f, d.at)) == CutOff <==> d.at == |f|
  {
  }

  /** Only the last piece of a format can be cut off. */
  lemma {:induction false} CutOffLast(fmt: string, i: nat)
    requires i <= |fmt| && CString(fmt)
    ensures forall k :: 0 <= k < |Parse(fmt, i)| - 1 ==> Parse(fmt, i)[k] != CutOff
    ensures i < |fmt| ==> Parse(fmt, i) != []
    decreases |fmt| - i
  {
    hide SpecOf;
    if i < |fmt| {
      if fmt[i] != '%' {
        CutOffLast(fmt, i + 1);
      } else {
        var d := SpecOf(fmt, i + 1);
        if d.at < |fmt| {
          CutOffLast(fmt, d.at + 1);
          assert At(fmt, d.at) != '\0';
        }
      }
    }
  }

  /** Formats compose exactly if the first does not end inside a directive. */
  lemma ParseConcat(f: string, g: string)
    requires CString(f) && CString(g)
    ensures Parse(f + g, 0) == Parse(f, 0) + Parse(g, 0) <==> CutOff !in Parse(f, 0) || g == ""
  {
    if CutOff !in Parse(f, 0) {
      ParseJoin(f, g, 0);
    } else if g == "" {
      assert f + g == f && Parse(g, 0) == [];
    } else {
      CutOffLast(f + g, 0);
      CutOffLast(g, 0);
      var k :| 0 <= k < |Parse(f, 0)| && Parse(f, 0)[k] == CutOff;
      assert (Parse(f, 0) + Parse(g, 0))[k] == CutOff;
    }
  }

  /** ... and so do the texts. */
  lemma FormattedConcat(f: string, g: string, a: seq<Arg>, b: seq<Arg>)
    requires CString(f) && CString(g) && CutOff !in Parse(f, 0) && |a| == Needs(Parse(f, 0))
    ensures Formatted(f + g, a + b) == Joined(Formatted(f, a), Formatted(g, b))
  {
    ParseConcat(f, g);
    RenderConcat(Parse(f, 0), Parse(g, 0), a, b);
  }

  /** Doubling each % makes a format of any text. */
  function Escaped(s: string): string
  {
    if s == "" then "" else (if s[0] == '%' then "%%" else [s[0]]) + Escaped(s[1..])
  }

  lemma OneChar(c: char)
    requires c != '\0'
    ensures var e := if c == '%' then "%%" else [c];
            CString(e) && Parse(e, 0) == [if c == '%' then Echo('%') else Literal(c)]
  {
    if c == '%' {
      var d := SpecOf("%%", 1);
      assert SkipFlags("%%", 1, NO_FLAGS) == (NO_FLAGS, 1);
      assert d.at == 1 && At("%%", 1) == '%';
      assert Parse("%%", 2) == [];
    } else {
      assert Parse([c], 1) == [];
    }
  }

  /** Round trip: the escaped text formats to the text itself, whatever follows in the arguments. */
  lemma {:induction false} EscapeRoundTrip(s: string)
    requires CString(s)
    ensures CString(Escaped(s)) && CutOff !in Parse(Escaped(s), 0) && Needs(Parse(Escaped(s), 0)) == 0
    ensures Formatted(Escaped(s), []) == Some(s)
  {
    hide Parse;
    if s == "" {
      assert Parse("", 0) == [] by { NoPieces(); }
    } else {
      var e := if s[0] == '%' then "%%" else [s[0]];
      var t := Escaped(s[1..]);
      OneChar(s[0]);
      EscapeRoundTrip(s[1..]);
      ParseConcat(e, t);
      var p := Parse(e, 0)[0];
      assert Parse(e, 0) == [p];
      assert Parse(e + t, 0)[1..] == Parse(t, 0);
      assert PieceText(p, []) == Some([s[0]]);
      assert [s[0]] + s[1..] == s;
    }
  }

  lemma NoPieces()
    ensures Parse("", 0) == []
  {
  }

  // ---- what each directive writes ---------------------------------------------------------------

  /** The parts of a directive behind its %: flags, the digits of the width, a dot with the digits of
      the precision, and a qualifier. */
  datatype Parts = Parts(flags: string, width: string, dot: bool, digits: string, qualifier: string)

  predicate Decimal(s: string)
  {
    forall i :: 0 <= i < |s| ==> '0' <= s[i] <= '9'
  }

  predicate PartsOk(p: Parts)
  {
    && (forall i :: 0 <= i < |p.flags| ==> p.flags[i] in {'-', '+', ' ', '#', '0'})
    && Decimal(p.width) && (p.width != "" ==> p.width[0] != '0')
    && Decimal(p.digits) && (!p.dot ==> p.digits == "")
    && p.qualifier in ["", "h", "l", "L"]
  }

  /** The directive as it stands in a format, up to its conversion character. */
  function Opening(p: Parts): string
  {
    "%" + p.flags + p.width + (if p.dot then "." else "") + p.digits + p.qualifier
  }

  /** The flags of the conversion c. */
  function FlagsIn(flags: string, c: char): Flags
  {
    Flags(zeropad := '0' in flags, sign := c == 'd' || c == 'i', plus := '+' in flags, space := ' ' in flags,
          left := '-' in flags, special := '#' in flags, small := c == 'x')
  }

  /** Width and precision are decimal numbers, -1 if there is none. */
  function WidthOf(p: Parts): int
  {
    if p.width == "" then -1 else Parsed(p.width, 10)
  }

  function PrecisionOf(p: Parts): int
  {
    if p.dot then Parsed(p.digits, 10) else -1
  }

  /** A character that ends a directive. */
  predicate Ends(c: char)
  {
    !('0' <= c <= '9') && c !in {'-', '+', ' ', '#', '.', '*', 'h', 'l', 'L'}
  }

  function AddFlags(f: Flags, s: string): Flags
  {
    Flags(f.zeropad || '0' in s, f.sign, f.plus || '+' in s, f.space || ' ' in s, f.left || '-' in s,
          f.special || '#' in s, f.small)
  }

  lemma AddFlagsCons(f: Flags, c: char, s: string)
    requires c in {'-', '+', ' ', '#', '0'}
    ensures AddFlags(WithFlag(f, c), s) == AddFlags(f, [c] + s) && IsFlag(c)
  {
    assert forall d :: d in [c] + s <==> d == c || d in s;
  }

  /** All flags from i to j are read. */
  lemma {:induction false} FlagsRead(fmt: string, i: nat, j: nat, f: Flags)
    requires i <= j <= |fmt| && forall k :: i <= k < j ==> fmt[k] in {'-', '+', ' ', '#', '0'}
    requires At(fmt, j) !in {'-', '+', ' ', '#', '0'}
    ensures SkipFlags(fmt, i, f) == (AddFlags(f, fmt[i..j]), j)
    decreases j - i
  {
    hide AddFlags, WithFlag;
    if i < j {
      FlagsRead(fmt, i + 1, j, WithFlag(f, fmt[i]));
      AddFlagsCons(f, fmt[i], fmt[i + 1..j]);
      assert fmt[i..j] == [fmt[i]] + fmt[i + 1..j];
    } else {
      assert fmt[i..j] == "" && AddFlags(f, "") == f by { AddNoFlags(f); }
    }
  }

  lemma AddNoFlags(f: Flags)
    ensures AddFlags(f, "") == f
  {
  }

  /** The digits up to the next other character are read as a decimal number. */
  lemma {:induction false} NumberRead(fmt: string, start: nat, i: nat)
    requires start <= i <= |fmt|
    ensures var r := SkipNumber(fmt, i, Parsed(fmt[start..i], 10));
            && r.0 == Parsed(fmt[start..r.1], 10) && (r.1 < |fmt| ==> !('0' <= fmt[r.1] <= '9'))
            && forall k :: i <= k < r.1 ==> '0' <= fmt[k] <= '9'
    decreases |fmt| - i
  {
    hide Parsed;
    if IsDigit(At(fmt, i)) {
      ParsedNext(fmt[start..i], fmt[i]);
      assert fmt[start..i] + [fmt[i]] == fmt[start..i + 1];
      NumberRead(fmt, start, i + 1);
    }
  }

  lemma ParsedNext(s: string, c: char)
    requires '0' <= c <= '9'
    ensures Parsed(s + [c], 10) == Parsed(s, 10) * 10 + (c as nat - '0' as nat)
  {
    assert (s + [c])[..|s|] == s;
  }

  /** The number that stands from i to j. */
  lemma NumberAt(fmt: string, i: nat, j: nat)
    requires i <= j <= |fmt| && !('0' <= At(fmt, j) <= '9') && forall k :: i <= k < j ==> '0' <= fmt[k] <= '9'
    ensures SkipNumber(fmt, i, 0) == (Parsed(fmt[i..j], 10), j)
  {
    hide SkipNumber;
    assert fmt[i..i] == "";
    NumberRead(fmt, i, i);
  }

  /** Reading a directive whose flags stand from i to j, the width from there to k, the precision
      up to m and a qualifier up to q. */
  lemma SpecAt(fmt: string, i: nat, j: nat, k: nat, dot: bool, m: nat, q: nat)
    requires i <= j <= k && (if dot then k + 1 else k) <= m <= q <= |fmt| && q <= m + 1
    requires forall a :: i <= a < j ==> fmt[a] in {'-', '+', ' ', '#', '0'}
    requires At(fmt, j) !in {'-', '+', ' ', '#', '0'}
    requires (forall a :: j <= a < k ==> '0' <= fmt[a] <= '9') && !('0' <= At(fmt, k) <= '9') && At(fmt, k) != '*'
    requires if dot then fmt[k] == '.' else At(fmt, k) != '.' && m == k
    requires (forall a :: k + 1 <= a < m ==> '0' <= fmt[a] <= '9') && !('0' <= At(fmt, m) <= '9') && At(fmt, m) != '*'
    requires q > m <==> At(fmt, m) in {'h', 'l', 'L'}
    ensures SpecOf(fmt, i) ==
              Spec(AddFlags(NO_FLAGS, fmt[i..j]), if j < k then Parsed(fmt[j..k], 10) else -1,
                   if dot then Parsed(fmt[k + 1..m], 10) else -1, false, q)
  {
    hide AddFlags, Parsed, SkipFlags, SkipNumber;
    FlagsRead(fmt, i, j, NO_FLAGS);
    NumberAt(fmt, j, k);
    if dot {
      NumberAt(fmt, k + 1, m);
      assert m == k + 1 ==> fmt[k + 1..m] == "";
      ParsedNothing();
    }
  }

  lemma ParsedNothing()
    ensures Parsed("", 10) == 0
  {
  }

  /** Where the parts of a directive stand. */
  lemma PartsAt(p: Parts, c: string)
    requires p.dot || p.digits == ""
    ensures var fmt, j := Opening(p) + c, 1 + |p.flags|;
            var k := j + |p.width|;
            var m := k + |p.digits| + if p.dot then 1 else 0;
            var q := |Opening(p)|;
            && q == m + |p.qualifier| && q + |c| == |fmt| && fmt[0] == '%' && fmt[1..j] == p.flags
            && fmt[j..k] == p.width && (p.dot ==> fmt[k] == '.' && fmt[k + 1..m] == p.digits)
            && fmt[m..q] == p.qualifier && fmt[q..] == c
  {
  }

  lemma PartsChars(p: Parts, c: string)
    requires PartsOk(p)
    ensures var fmt, j := Opening(p) + c, 1 + |p.flags|;
            var k := j + |p.width|;
            var m := k + |p.digits| + if p.dot then 1 else 0;
            && m <= |Opening(p)| <= m + 1
            && (forall a :: 1 <= a < j ==> fmt[a] in {'-', '+', ' ', '#', '0'})
            && (forall a :: j <= a < k ==> '0' <= fmt[a] <= '9') && (j < k ==> fmt[j] != '0')
            && (forall a :: k + 1 <= a < m ==> '0' <= fmt[a] <= '9')
            && (m < |Opening(p)| ==> fmt[m] in {'h', 'l', 'L'})
  {
    hide Opening;
    PartsAt(p, c);
    var fmt, j := Opening(p) + c, 1 + |p.flags|;
    var k := j + |p.width|;
    var m := k + |p.digits| + if p.dot then 1 else 0;
    assert forall a :: 1 <= a < j ==> fmt[a] == fmt[1..j][a - 1];
    assert forall a :: j <= a < k ==> fmt[a] == fmt[j..k][a - j];
    assert forall a :: k + 1 <= a < m ==> fmt[a] == fmt[k + 1..m][a - (k + 1)];
    assert forall a :: m <= a < |Opening(p)| ==> fmt[a] == fmt[m..|Opening(p)|][a - m];
  }

  lemma PartsSpec(p: Parts, c: string)
    requires PartsOk(p) && |c| <= 1 && (c != "" ==> Ends(c[0]))
    ensures SpecOf(Opening(p) + c, 1) ==
              Spec(AddFlags(NO_FLAGS, p.flags), WidthOf(p), PrecisionOf(p), false, |Opening(p)|)
  {
    hide AddFlags, Parsed, SpecOf, Opening, Decimal;
    PartsAt(p, c);
    PartsChars(p, c);
    var fmt, j := Opening(p) + c, 1 + |p.flags|;
    var k := j + |p.width|;
    var m := k + |p.digits| + if p.dot then 1 else 0;
    var q := |Opening(p)|;
    assert At(fmt, q) == if c == "" then '\0' else c[0];
    SpecAt(fmt, 1, j, k, p.dot, m, q);
  }

  lemma AddToNone(flags: string, c: char)
    ensures var f := AddFlags(NO_FLAGS, flags);
            !f.sign && !f.small && FlagsIn(flags, c) == f.(sign := c == 'd' || c == 'i', small := c == 'x')
  {
  }

  /** A format that is one directive. */
  lemma OnePiece(p: Parts, c: string, args: seq<Arg>)
    requires PartsOk(p) && |c| <= 1 && (c != "" ==> Ends(c[0]))
    ensures var fmt := Opening(p) + c;
            var d := Spec(AddFlags(NO_FLAGS, p.flags), WidthOf(p), PrecisionOf(p), false, |Opening(p)|);
            Parse(fmt, 0) == [PieceOf(d, At(c, 0))] && Formatted(fmt, args) == PieceText(PieceOf(d, At(c, 0)), args)
  {
    hide SpecOf, PieceOf, PieceText, Opening, AddFlags, Parse, Render;
    var fmt := Opening(p) + c;
    PartsAt(p, c);
    PartsSpec(p, c);
    assert At(fmt, |Opening(p)|) == At(c, 0);
    ParseStep(fmt, 0);
    if c != "" {
      ParseStep(fmt, |fmt|);
    }
    var piece := PieceOf(SpecOf(fmt, 1), At(c, 0));
    assert Parse(fmt, 0) == [piece];
    RenderStep([piece], args);
    RenderStep([piece][1..], After(args, Uses(piece)));
    JoinedEmpty(PieceText(piece, args));
  }

  lemma JoinedEmpty(x: Option<string>)
    ensures Joined(x, Some("")) == x
  {
    assert x.Some? ==> x.value + "" == x.value;
  }

  /** The numeric conversions: x and X write the number in base 16, d, i and u in base 10, for every
      combination of flags, width, precision and qualifier.  The text can be read back to the
      number, x uses small letters only and X capital letters only. */
  lemma NumericDirective(p: Parts, c: char, args: seq<Arg>)
    requires PartsOk(p) && c in {'x', 'X', 'd', 'i', 'u'} && args != [] && args[0].IntArg?
    ensures var fmt, base := Opening(p) + [c], if c == 'x' || c == 'X' then 16 else 10;
            && CutOff !in Parse(fmt, 0) && Needs(Parse(fmt, 0)) == 1 && Formatted(fmt, args).Some?
            && PlacedText(Formatted(fmt, args).value, args[0].n, base, WidthOf(p), PrecisionOf(p), FlagsIn(p.flags, c))
            && ReadNumber(Formatted(fmt, args).value, base) == args[0].n
            && (c != 'x' ==> forall a :: a in Formatted(fmt, args).value ==> !('a' <= a <= 'z'))
            && (c != 'X' ==> forall a :: a in Formatted(fmt, args).value ==> !('A' <= a <= 'Z'))
  {
    hide Opening, Parse, Rendered, PlacedText, AddFlags, ReadNumber, Formatted, WidthOf, PrecisionOf, FlagsIn;
    OnePiece(p, [c], args);
    AddToNone(p.flags, c);
    var n, base, f := args[0].n, if c == 'x' || c == 'X' then 16 else 10, FlagsIn(p.flags, c);
    var text := Rendered(n, base, WidthOf(p), PrecisionOf(p), f);
    RenderedPlaced(text, n, base, WidthOf(p), PrecisionOf(p), f);
    ReadsBack(n, base, WidthOf(p), PrecisionOf(p), f);
    PlacedCase(text, n, base, WidthOf(p), PrecisionOf(p), f);
  }

  /** The conversion s writes the first characters of the string, up to the precision, and fills with
      blanks up to the width: behind them for the flag -, else before them. */
  lemma StringDirective(p: Parts, args: seq<Arg>)
    requires PartsOk(p) && args != [] && args[0].StrArg?
    ensures var fmt, s := Opening(p) + "s", args[0].s;
            var len := if p.dot && Parsed(p.digits, 10) < |s| then Parsed(p.digits, 10) else |s|;
            var pad := if p.width != "" && Parsed(p.width, 10) > len then Parsed(p.width, 10) - len else 0;
            && CutOff !in Parse(fmt, 0) && Needs(Parse(fmt, 0)) == 1 && Formatted(fmt, args).Some?
            && var t, start := Formatted(fmt, args).value, if '-' in p.flags then 0 else pad;
               && |t| == pad + len && t[start..start + len] == s[..len]
               && forall i :: 0 <= i < |t| && !(start <= i < start + len) ==> t[i] == ' '
  {
    hide Opening, Parse, AddFlags, Parsed, Formatted, Repeat;
    OnePiece(p, "s", args);
    assert FlagsIn(p.flags, 's').left == AddFlags(NO_FLAGS, p.flags).left by { AddToNone(p.flags, 's'); }
  }

  /** Any other conversion is echoed behind %, except that a % stands for itself; no argument is
      taken.  A directive that the format cuts off writes %. */
  lemma OtherDirective(p: Parts, c: string, args: seq<Arg>)
    requires PartsOk(p) && |c| <= 1 && (c != "" ==> Ends(c[0]) && c[0] !in {'s', 'x', 'X', 'd', 'i', 'u', '\0'})
    ensures var fmt := Opening(p) + c;
            && (CutOff in Parse(fmt, 0) <==> c == "") && Needs(Parse(fmt, 0)) == 0
            && Formatted(fmt, args) == Some(if c == "%" then "%" else "%" + c)
  {
    hide Opening, Parse, AddFlags, Parsed, Formatted;
    OnePiece(p, c, args);
    assert if c == "" then "%" + c == "%" else c == [c[0]] && "%" + c == ['%', c[0]];
  }

  /** `*` for the width or the precision takes an argument and ends the directive: %* is written. */
  lemma StarDirective(p: Parts, args: seq<Arg>)
    requires PartsOk(p) && p.qualifier == "" && p.digits == "" && (p.dot || p.width == "")
    requires args != [] && args[0].IntArg?
    ensures var fmt := Opening(p) + "*";
            CutOff !in Parse(fmt, 0) && Needs(Parse(fmt, 0)) == 1 && Formatted(fmt, args) == Some("%*")
  {
    hide Opening, Parse, AddFlags, Render, SpecOf;
    PartsAt(p, "*");
    var fmt := Opening(p) + "*";
    StarAt(p);
    ParseStep(fmt, 0);
    ParseStep(fmt, |fmt|);
    assert Parse(fmt, 0) == [Starred];
    RenderStep([Starred], args);
    RenderStep([Starred][1..], After(args, 1));
    JoinedEmpty(Some("%*"));
  }

  lemma StarAt(p: Parts)
    requires PartsOk(p) && p.qualifier == "" && p.digits == "" && (p.dot || p.width == "")
    ensures var d := SpecOf(Opening(p) + "*", 1); d.star && d.at == |Opening(p)|
  {
    hide AddFlags, Parsed, Opening, SkipFlags, SkipNumber;
    PartsAt(p, "*");
    var fmt, j := Opening(p) + "*", 1 + |p.flags|;
    var k := j + |p.width|;
    assert forall a :: 1 <= a < j ==> fmt[a] == fmt[1..j][a - 1];
    assert forall a :: j <= a < k ==> fmt[a] == fmt[j..k][a - j];
    assert fmt[|Opening(p)|..][0] == '*';
    FlagsRead(fmt, 1, j, NO_FLAGS);
    NumberAt(fmt, j, k);
  }

  // ---- the code -------------------------------------------------------------------------------

  /** The flags after %, up to the first other character. */
  method ReadFlags(fmt: string, i: nat) returns (f: Flags, j: nat)
    requires i <= |fmt|
    ensures (f, j) == SkipFlags(fmt, i, NO_FLAGS)
  {
    f, j := NO_FLAGS, i;
    while IsFlag(At(fmt, j))
      invariant j <= |fmt| && SkipFlags(fmt, j, f) == SkipFlags(fmt, i, NO_FLAGS)
      decreases |fmt| - j
    {
      f := WithFlag(f, At(fmt, j));
      j := j + 1;
    }
  }

  /** `skip_atoi` */
  method SkipAtoi(fmt: string, i: nat) returns (n: nat, j: nat)
    requires i <= |fmt|
    ensures (n, j) == SkipNumber(fmt, i, 0)
    ensures i <= j <= |fmt| && n == Parsed(fmt[i..j], 10) && Decimal(fmt[i..j])
    ensures j < |fmt| ==> !('0' <= fmt[j] <= '9')
  {
    n, j := 0, i;
    assert fmt[i..i] == "";
    NumberRead(fmt, i, i);
    while IsDigit(At(fmt, j))
      invariant j <= |fmt| && SkipNumber(fmt, j, n) == SkipNumber(fmt, i, 0)
      decreases |fmt| - j
    {
      n := n * 10 + (At(fmt, j) as nat - '0' as nat);
      j := j + 1;
    }
  }

  /** `va_arg(args, int)`: the low 32 bits as a signed number. */
  function AsInt(n: Word64): (r: int)
    ensures -0x8000_0000 <= r < 0x8000_0000 && (n - r) % 0x1_0000_0000 == 0
  {
    var m := n % 0x1_0000_0000;
    if m < 0x8000_0000 then m else m - 0x1_0000_0000
  }

  /** The directive with the argument that `*` takes: a negative width is its amount and LEFT, a
      negative precision is 0. */
  function SpecFor(fmt: string, i: nat, args: seq<Arg>): Spec
    requires i <= |fmt| && (SpecOf(fmt, i).star ==> args != [] && args[0].IntArg?)
  {
    var d := SpecOf(fmt, i);
    if !d.star then d
    else
      var n := AsInt(args[0].n);
      if At(fmt, SkipFlags(fmt, i, NO_FLAGS).1) == '*' then
        d.(f := if n < 0 then d.f.(left := true) else d.f, width := Max(n, -n))
      else d.(precision := Max(n, 0))
  }

  /** A directive up to its conversion character; `taken` counts the arguments taken for `*`. */
  method ReadSpec(fmt: string, i: nat, args: seq<Arg>) returns (d: Spec, taken: nat)
    requires i <= |fmt|
    requires SpecOf(fmt, i).star ==> args != [] && args[0].IntArg?
    ensures d == SpecFor(fmt, i, args) && taken == if d.star then 1 else 0
  {
    hide SkipFlags, SkipNumber;
    var f, j := ReadFlags(fmt, i);
    var width, precision, star := -1, -1, false;
    taken := 0;
    if IsDigit(At(fmt, j)) {
      width, j := SkipAtoi(fmt, j);
    } else if At(fmt, j) == '*' {
      width, taken, star := AsInt(args[0].n), 1, true;
      if width < 0 {
        width, f := -width, f.(left := true);
      }
    }
    if At(fmt, j) == '.' {
      j := j + 1;
      if IsDigit(At(fmt, j)) {
        precision, j := SkipAtoi(fmt, j);
      } else if At(fmt, j) == '*' {
        precision, taken, star := AsInt(args[0].n), 1, true;
      }
      if precision < 0 {
        precision := 0;
      }
    }
    if IsQualifier(At(fmt, j)) {
      j := j + 1;
    }
    d := Spec(f, width, precision, star, j);
  }

  /** The conversion `s`. */
  method PutString(buf: array<char>, str: nat, s: string, width: int, precision: int, left: bool) returns (end: nat)
    requires str + |PaddedString(s, width, precision, left)| <= buf.Length
    modifies buf
    ensures var t := PaddedString(s, width, precision, left);
            end == str + |t| && Appended(old(Text(buf)), Text(buf), str, t)
  {
    hide Appended, Text, Repeat, PaddedString;
    var len := if 0 <= precision < |s| then precision else |s|;
    var rest := width - len;
    ghost var a, t := Text(buf), s[..len];
    ghost var before, after := Repeat(' ', if left then 0 else rest), Repeat(' ', if left then rest else 0);
    PaddedParts(s, width, precision, left);
    end := str;
    NoRepeat(' ', '0', 0);
    if !left {
      end := Fill(buf, end, ' ', rest);
      rest := -1;
    } else {
      NothingAppended(a, str);
    }
    assert Repeat(' ', rest) == after by { NoRepeat(' ', '0', -1); }
    ghost var b := Text(buf);
    end := PutChars(buf, end, s[..len]);
    AppendedTwice(a, b, Text(buf), str, before, t);
    b := Text(buf);
    end := Fill(buf, end, ' ', rest);
    AppendedTwice(a, b, Text(buf), str, before + t, after);
  }

  lemma PaddedParts(s: string, width: int, precision: int, left: bool)
    ensures var len := if 0 <= precision < |s| then precision else |s|;
            PaddedString(s, width, precision, left)
            == Repeat(' ', if left then 0 else width - len) + s[..len] + Repeat(' ', if left then width - len else 0)
  {
    hide Repeat;
    NoRepeat(' ', '0', 0);
    var t := s[..if 0 <= precision < |s| then precision else |s|];
    assert "" + t == t && (Repeat(' ', width - |t|) + t) + "" == Repeat(' ', width - |t|) + t;
  }

  /** `for(i = 0; i < len; i++) *str++ = *s++;` */
  method PutChars(buf: array<char>, str: nat, s: string) returns (end: nat)
    requires str + |s| <= buf.Length
    modifies buf
    ensures end == str + |s| && Appended(old(Text(buf)), Text(buf), str, s)
  {
    hide Appended, Text;
    end := str;
    NothingAppended(Text(buf), str);
    for i := 0 to |s|
      invariant end == str + i && Appended(old(Text(buf)), Text(buf), str, s[..i])
    {
      ghost var a := Text(buf);
      end := Put(buf, end, s[i]);
      AppendedTwice(old(Text(buf)), a, Text(buf), str, s[..i], [s[i]]);
      assert s[..i] + [s[i]] == s[..i + 1];
    }
    assert s[..|s|] == s;
  }

  /** The conversions that take a number. */
  method PutNumeral(buf: array<char>, str: nat, n: Word64, p: Piece) returns (end: nat)
    requires p.Numeral? && (p.base == 10 || p.base == 16)
    requires str + |Rendered(n, p.base, p.width, p.precision, p.f)| <= buf.Length
    modifies buf
    ensures var t := Rendered(n, p.base, p.width, p.precision, p.f);
            end == str + |t| && Appended(old(Text(buf)), Text(buf), str, t)
  {
    hide Appended, Text, Rendered, Digits;
    assert |Digits(n, p.base, p.f.small)| <= SCRATCH by { ScratchFits(p.base, p.f.small); }
    var ok;
    ok, end := Number(buf, str, n, p.base, p.width, p.precision, p.f);
  }

  /** The default case: an unknown conversion is echoed, a directive cut off leaves its %. */
  method PutDefault(buf: array<char>, str: nat, c: char) returns (end: nat)
    requires str + (if c == '%' || c == '\0' then 1 else 2) <= buf.Length
    modifies buf
    ensures var t := if c == '%' || c == '\0' then "%" else ['%', c];
            end == str + |t| && Appended(old(Text(buf)), Text(buf), str, t)
  {
    hide Appended, Text;
    end := str;
    ghost var a := Text(buf);
    NothingAppended(a, str);
    if c != '%' {
      end := Put(buf, end, '%');
      AppendedTwice(a, a, Text(buf), str, "", "%");
      assert "" + "%" == "%";
    }
    ghost var b := Text(buf);
    if c != '\0' {
      end := Put(buf, end, c);
      ghost var s := if c == '%' then "" else "%";
      AppendedTwice(a, b, Text(buf), str, s, [c]);
      assert s + [c] == if c == '%' then "%" else ['%', c];
    }
  }

  /** The second switch of `vsprintf`: what the conversion character asks for. */
  method Convert(buf: array<char>, str: nat, d: Spec, c: char, args: seq<Arg>) returns (end: nat, taken: nat)
    requires (d.star ==> c == '*') && PieceText(PieceOf(d, c), args).Some?
    requires str + |PieceText(PieceOf(d, c), args).value| <= buf.Length
    modifies buf
    ensures var t := PieceText(PieceOf(d, c), args).value;
            end == str + |t| && Appended(old(Text(buf)), Text(buf), str, t)
    ensures taken == if d.star then 0 else Uses(PieceOf(d, c))
  {
    hide Appended, Text, Rendered, PaddedString;
    var f := d.f;
    taken := 0;
    if c == 's' {
      end := PutString(buf, str, args[0].s, d.width, d.precision, f.left);
      taken := 1;
    } else if c == 'x' || c == 'X' {
      if c == 'x' {
        f := f.(small := true);
      }
      end := PutNumeral(buf, str, args[0].n, Numeral(16, d.width, d.precision, f));
      taken := 1;
    } else if c == 'd' || c == 'i' || c == 'u' {
      if c != 'u' {
        f := f.(sign := true);
      }
      end := PutNumeral(buf, str, args[0].n, Numeral(10, d.width, d.precision, f));
      taken := 1;
    } else {
      end := PutDefault(buf, str, c);
    }
  }

  lemma StarConversion(fmt: string, i: nat)
    requires i <= |fmt| && CString(fmt)
    ensures var d := SpecOf(fmt, i);
            && (d.star ==> At(fmt, d.at) == '*')
            && (At(fmt, d.at) == '\0' <==> d.at == |fmt|)
  {
    hide SkipFlags, SkipNumber;
  }

  /** What is still to be written from position i on with argument a. */
  function Rest(fmt: string, i: nat, args: seq<Arg>, a: nat): Option<string>
    requires i <= |fmt| && a <= |args|
  {
    Render(Parse(fmt, i), args[a..])
  }

  /** The text still to come splits into that of the next piece and the rest. */
  lemma RestStep(fmt: string, i: nat, args: seq<Arg>, a: nat)
    requires i < |fmt| && a <= |args| && CString(fmt) && Rest(fmt, i, args, a).Some?
    ensures fmt[i] != '%' ==>
              && Rest(fmt, i + 1, args, a).Some?
              && Rest(fmt, i, args, a).value == [fmt[i]] + Rest(fmt, i + 1, args, a).value
    ensures fmt[i] == '%' ==>
              var d, p, next := SpecOf(fmt, i + 1), PieceAt(fmt, i + 1), NextAt(fmt, i + 1);
              && PieceText(p, args[a..]).Some? && a + Uses(p) <= |args| && Rest(fmt, next, args, a + Uses(p)).Some?
              && (d.star ==> p == Starred && args[a..] != [] && args[a..][0].IntArg?)
              && Rest(fmt, i, args, a).value == PieceText(p, args[a..]).value + Rest(fmt, next, args, a + Uses(p)).value
  {
    hide SpecOf, Parse, Render;
    ParseStep(fmt, i);
    RenderStep(Parse(fmt, i), args[a..]);
    if fmt[i] == '%' {
      StarConversion(fmt, i + 1);
      var d := SpecOf(fmt, i + 1);
      var p := PieceOf(d, At(fmt, d.at));
      assert Parse(fmt, i)[0] == p;
      ParseStep(fmt, |fmt|);
      assert Parse(fmt, i)[1..] == Parse(fmt, if d.at < |fmt| then d.at + 1 else |fmt|);
      assert args[a..][Uses(p)..] == args[a + Uses(p)..];
    } else {
      assert Parse(fmt, i)[1..] == Parse(fmt, i + 1) && Parse(fmt, i)[0] == Literal(fmt[i]);
      assert args[a..][0..] == args[a..];
    }
  }

  /** The piece of the directive whose flags start at i, and the position behind it. */
  function PieceAt(fmt: string, i: nat): Piece
    requires i <= |fmt|
  {
    PieceOf(SpecOf(fmt, i), At(fmt, SpecOf(fmt, i).at))
  }

  function NextAt(fmt: string, i: nat): (j: nat)
    requires i <= |fmt|
    ensures i <= j <= |fmt|
  {
    if SpecOf(fmt, i).at < |fmt| then SpecOf(fmt, i).at + 1 else |fmt|
  }

  /** A whole directive, from the flags after % to behind the conversion character. */
  method PutDirective(buf: array<char>, str: nat, fmt: string, i: nat, args: seq<Arg>, a: nat)
    returns (end: nat, next: nat, b: nat)
    requires i <= |fmt| && CString(fmt) && a <= |args|
    requires SpecOf(fmt, i).star ==> PieceAt(fmt, i) == Starred && args[a..] != [] && args[a..][0].IntArg?
    requires PieceText(PieceAt(fmt, i), args[a..]).Some?
    requires str + |PieceText(PieceAt(fmt, i), args[a..]).value| <= buf.Length
    modifies buf
    ensures var t := PieceText(PieceAt(fmt, i), args[a..]).value;
            end == str + |t| && Appended(old(Text(buf)), Text(buf), str, t)
    ensures next == NextAt(fmt, i) && b == a + Uses(PieceAt(fmt, i))
  {
    hide Appended, Text, SpecOf, SpecFor, PieceOf, PieceText;
    StarConversion(fmt, i);
    SpecForParts(fmt, i, args[a..]);
    var d, star := ReadSpec(fmt, i, args[a..]);
    var c := At(fmt, d.at);
    assert PieceOf(d, c) == PieceAt(fmt, i) by { SpecPiece(d, SpecOf(fmt, i), c); }
    var taken;
    end, taken := Convert(buf, str, d, c, args[a..]);
    b := a + star + taken;
    next := if c == '\0' then d.at else d.at + 1;
  }

  /** `vsprintf`: it writes the text of the format, NUL-terminated, and returns its length. */
  method Vsprintf(buf: array<char>, fmt: string, args: seq<Arg>) returns (len: nat)
    requires CString(fmt) && Formatted(fmt, args).Some? && |Formatted(fmt, args).value| < buf.Length
    modifies buf
    ensures len == |Formatted(fmt, args).value|
    ensures Appended(old(Text(buf)), Text(buf), 0, Formatted(fmt, args).value + ['\0'])
  {
    hide Appended, Text, SpecOf, PieceAt, PieceText, Render, Rest, NextAt;
    var str: nat, i: nat, a: nat := 0, 0, 0;
    ghost var start, total, done := Text(buf), Formatted(fmt, args).value, "";
    NothingAppended(start, 0);
    assert Rest(fmt, 0, args, 0) == Some(total) by { WholeRest(fmt, args); }
    while i < |fmt|
      invariant i <= |fmt| && a <= |args| && Rest(fmt, i, args, a).Some? && total == done + Rest(fmt, i, args, a).value
      invariant str == |done| && Appended(start, Text(buf), 0, done)
      decreases |fmt| - i
    {
      RestStep(fmt, i, args, a);
      ghost var before, s := Text(buf), Rest(fmt, i, args, a).value;
      if At(fmt, i) != '%' {
        str := Put(buf, str, At(fmt, i));
        AppendedTwice(start, before, Text(buf), 0, done, [fmt[i]]);
        done := done + [fmt[i]];
        i := i + 1;
      } else {
        ghost var t := PieceText(PieceAt(fmt, i + 1), args[a..]).value;
        str, i, a := PutDirective(buf, str, fmt, i + 1, args, a);
        AppendedTwice(start, before, Text(buf), 0, done, t);
        done := done + t;
      }
    }
    assert Rest(fmt, |fmt|, args, a).value == "" by { NoRest(fmt, args, a); }
    assert done + "" == done;
    ghost var before := Text(buf);
    var _ := Put(buf, str, '\0');
    AppendedTwice(start, before, Text(buf), 0, done, ['\0']);
    len := str;
  }

  lemma WholeRest(fmt: string, args: seq<Arg>)
    ensures Rest(fmt, 0, args, 0) == Formatted(fmt, args)
  {
    assert args[0..] == args;
  }

  lemma NoRest(fmt: string, args: seq<Arg>, a: nat)
    requires a <= |args|
    ensures Rest(fmt, |fmt|, args, a) == Some("")
  {
  }

  lemma SpecForParts(fmt: string, i: nat, args: seq<Arg>)
    requires i <= |fmt| && (SpecOf(fmt, i).star ==> args != [] && args[0].IntArg?)
    ensures var d, e := SpecFor(fmt, i, args), SpecOf(fmt, i);
            d.at == e.at && d.star == e.star && (!d.star ==> d == e)
  {
  }

  /** After `*` width and precision no longer matter. */
  lemma SpecPiece(d: Spec, e: Spec, c: char)
    requires d.star == e.star && (d.star ==> c == '*') && (!d.star ==> d == e)
    ensures PieceOf(d, c) == PieceOf(e, c)
  {
  }
}
