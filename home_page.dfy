/**
 * The generation form of the home page (frontend/src/app/page.tsx): when the
 * submit button is enabled, and the checks `handleSubmit` makes before it
 * asks for a maze: the size bounds, then the image requirement. `parseInt`
 * results are modelled with JavaScript's NaN made explicit.
 */
module HomePage {
  import opened Common
  import opened ImageDimensions

  /** The entries of `ALGORITHMS`. */
  datatype Algorithm = Image | Kruskal | Recursive

  /** The `id` of each entry. */
  function AlgorithmId(a: Algorithm): string
  {
    match a
    case Image => "image"
    case Kruskal => "kruskal"
    case Recursive => "recursive"
  }

  /** `ALGORITHMS.find(a => a.id === id)`: the algorithm with this id, if any. */
  function AlgorithmOf(id: string): (a: Option<Algorithm>)
    ensures a.Some? ==> AlgorithmId(a.value) == id
  {
    if id == "image" then Some(Image)
    else if id == "kruskal" then Some(Kruskal)
    else if id == "recursive" then Some(Recursive)
    else None
  }

  /** Every algorithm is found by its own id, and only ids of algorithms are found. */
  lemma AlgorithmIdRoundTrip(a: Algorithm, id: string)
    ensures AlgorithmOf(AlgorithmId(a)) == Some(a)
    ensures AlgorithmOf(id).None? <==> id != "image" && id != "kruskal" && id != "recursive"
  {
  }

  /** The value of `parseInt` on a form field: an integer, or NaN for text that is not a number. */
  datatype ParsedInt = Int(n: int) | NaN

  /** The value of a digit character in any base up to 36, and 36 for any other character. */
  function DigitOf(ch: char): (d: int)
    ensures 0 <= d <= 36
  {
    if '0' <= ch <= '9' then ch as int - '0' as int
    else if 'a' <= ch <= 'z' then ch as int - 'a' as int + 10
    else if 'A' <= ch <= 'Z' then ch as int - 'A' as int + 10
    else 36
  }

  predicate IsDigit(ch: char, radix: int)
  {
    DigitOf(ch) < radix
  }

  /** The length of the longest prefix made of digits of the base. */
  function DigitRun(s: string, radix: int): (n: nat)
    ensures n <= |s|
    ensures forall i :: 0 <= i < n ==> IsDigit(s[i], radix)
    ensures n < |s| ==> !IsDigit(s[n], radix)
    decreases |s|
  {
    if s != [] && IsDigit(s[0], radix) then 1 + DigitRun(s[1..], radix) else 0
  }

  /** The number a string of digits denotes in the base, most significant digit first. */
  function DigitsValue(ds: string, radix: nat): (v: nat)
    decreases |ds|
  {
    if ds == [] then 0 else DigitsValue(ds[..|ds| - 1], radix) * radix + DigitOf(ds[|ds| - 1])
  }

  /**
   * `parseInt` after the white space and the sign: a `0x` or `0X` prefix
   * selects base 16, otherwise base 10; the longest run of digits of the
   * base is read and everything after it ignored; no digit at all gives NaN.
   */
  function ParseUnsigned(u: string): (r: ParsedInt)
    ensures r.Int? ==> r.n >= 0
  {
    var hex := |u| >= 2 && u[0] == '0' && (u[1] == 'x' || u[1] == 'X');
    var radix := if hex then 16 else 10;
    var body := if hex then u[2..] else u;
    var n := DigitRun(body, radix);
    if n == 0 then NaN else Int(DigitsValue(body[..n], radix))
  }

  /** `parseInt` after the white space: an optional sign, then the unsigned number. */
  function ParseSigned(t: string): ParsedInt
  {
    if t != [] && t[0] == '-' then
      (match ParseUnsigned(t[1..]) case NaN => NaN case Int(n) => Int(-n))
    else if t != [] && t[0] == '+' then ParseUnsigned(t[1..])
    else ParseUnsigned(t)
  }

  /** JavaScript's `parseInt(s)` without a radix: leading white space is skipped, then the signed number is read. */
  function ParseInt(s: string): ParsedInt
  {
    ParseSigned(TrimStart(s))
  }

  /** The decimal numeral of a natural number, without leading zeros. */
  function Decimal(n: nat): (s: string)
    ensures s != [] && forall i :: 0 <= i < |s| ==> '0' <= s[i] <= '9'
    ensures s[0] == '0' <==> n == 0
    decreases n
  {
    if n < 10 then [('0' as int + n) as char]
    else Decimal(n / 10) + [('0' as int + n % 10) as char]
  }

  /** The numeral of an integer, with a minus sign when it is negative. */
  function Numeral(n: int): string
  {
    if n < 0 then "-" + Decimal(-n) else Decimal(n)
  }

  /** A decimal numeral denotes its own number. */
  lemma {:induction false} DecimalValue(n: nat)
    ensures DigitsValue(Decimal(n), 10) == n
    decreases n
  {
    if n >= 10 {
      DecimalValue(n / 10);
      var s := Decimal(n);
      assert s[..|s| - 1] == Decimal(n / 10);
    }
  }

  /** The digit run of digits followed by a non-digit is exactly those digits. */
  lemma {:induction false} DigitRunOf(ds: string, rest: string, radix: int)
    requires forall i :: 0 <= i < |ds| ==> IsDigit(ds[i], radix)
    requires rest == [] || !IsDigit(rest[0], radix)
    ensures DigitRun(ds + rest, radix) == |ds|
    decreases |ds|
  {
    if ds != [] {
      assert (ds + rest)[1..] == ds[1..] + rest;
      DigitRunOf(ds[1..], rest, radix);
    } else {
      assert ds + rest == rest;
    }
  }

  /** Leading white space is dropped up to the first other character. */
  lemma {:induction false} TrimStartSkips(ws: string, x: string)
    requires forall i :: 0 <= i < |ws| ==> IsJsSpace(ws[i])
    requires x == [] || !IsJsSpace(x[0])
    ensures TrimStart(ws + x) == x
    decreases |ws|
  {
    if ws != [] {
      assert (ws + x)[1..] == ws[1..] + x;
      TrimStartSkips(ws[1..], x);
    } else {
      assert ws + x == x;
    }
  }

  /** The numeral of a natural number, followed by anything but a digit or a `0x` marker, reads back as that number. */
  lemma ParseDecimal(m: nat, rest: string)
    requires rest == [] || !IsDigit(rest[0], 10)
    requires m != 0 || rest == [] || (rest[0] != 'x' && rest[0] != 'X')
    ensures ParseUnsigned(Decimal(m) + rest) == Int(m)
  {
    var ds := Decimal(m);
    var u := ds + rest;
    assert u[0] == ds[0];
    if |u| >= 2 && u[0] == '0' {
      assert |ds| == 1;
      assert u[1] == rest[0];
    }
    DigitRunOf(ds, rest, 10);
    assert u[..|ds|] == ds;
    DecimalValue(m);
  }

  /**
   * `parseInt` reads back the numeral of any integer, after any leading
   * white space and before any text that does not continue the number (a
   * non-digit, and after a lone 0 nothing that makes it a `0x` prefix):
   * `" 42"`, `"-7"` and `"12.5"` give 42, -7 and 12.
   */
  lemma ParseNumeral(ws: string, n: int, rest: string)
    requires forall i :: 0 <= i < |ws| ==> IsJsSpace(ws[i])
    requires rest == [] || !IsDigit(rest[0], 10)
    requires n != 0 || rest == [] || (rest[0] != 'x' && rest[0] != 'X')
    ensures ParseInt(ws + Numeral(n) + rest) == Int(n)
  {
    var m := if n < 0 then -n else n;
    var x := Numeral(n) + rest;
    assert ws + Numeral(n) + rest == ws + x;
    assert x[0] == '-' || x[0] == Decimal(m)[0];
    TrimStartSkips(ws, x);
    ParseSignedNumeral(n, rest);
  }

  /** The signed reading of an integer's numeral followed by text that does not continue it. */
  lemma ParseSignedNumeral(n: int, rest: string)
    requires rest == [] || !IsDigit(rest[0], 10)
    requires n != 0 || rest == [] || (rest[0] != 'x' && rest[0] != 'X')
    ensures ParseSigned(Numeral(n) + rest) == Int(n)
  {
    if n < 0 {
      ParseNegative(-n, rest);
      assert Numeral(n) + rest == "-" + (Decimal(-n) + rest);
    } else {
      ParseNonNegative(n, rest);
      assert Numeral(n) + rest == Decimal(n) + rest;
    }
  }

  lemma ParseNegative(m: nat, rest: string)
    requires m > 0 && (rest == [] || !IsDigit(rest[0], 10))
    ensures ParseSigned("-" + (Decimal(m) + rest)) == Int(-(m as int))
  {
    ParseDecimal(m, rest);
    ParseMinus(Decimal(m) + rest);
  }

  lemma ParseNonNegative(m: nat, rest: string)
    requires rest == [] || !IsDigit(rest[0], 10)
    requires m != 0 || rest == [] || (rest[0] != 'x' && rest[0] != 'X')
    ensures ParseSigned(Decimal(m) + rest) == Int(m)
  {
    ParseDecimal(m, rest);
    ParseNoSign(Decimal(m) + rest);
  }

  /** A leading minus sign negates the number after it. */
  lemma ParseMinus(u: string)
    ensures ParseSigned("-" + u) == match ParseUnsigned(u) case NaN => NaN case Int(k) => Int(-k)
  {
    assert ("-" + u)[1..] == u;
  }

  /** Text starting with a digit has no sign to read. */
  lemma ParseNoSign(u: string)
    requires u != [] && '0' <= u[0] <= '9'
    ensures ParseSigned(u) == ParseUnsigned(u)
  {
  }

  /** Text that is empty or all white space has no digit and parses to NaN. */
  lemma ParseBlankIsNaN(ws: string)
    requires forall i :: 0 <= i < |ws| ==> IsJsSpace(ws[i])
    ensures ParseInt(ws) == NaN
  {
    TrimStartSkips(ws, []);
    assert ws + [] == ws;
  }

  /** `v < k` in JavaScript: false whenever v is NaN. */
  predicate Below(v: ParsedInt, k: int)
  {
    v.Int? && v.n < k
  }

  /** `v > k` in JavaScript: false whenever v is NaN. */
  predicate Above(v: ParsedInt, k: int)
  {
    v.Int? && v.n > k
  }

  /** The bounds test exactly as written: `rows < 2 || rows > 300 || cols < 2 || cols > 300`. */
  predicate OutOfBoundsAsWritten(rows: ParsedInt, cols: ParsedInt)
  {
    Below(rows, MinDim) || Above(rows, MaxDim) || Below(cols, MinDim) || Above(cols, MaxDim)
  }

  /**
   * With an empty size field `parseInt` gives NaN, every comparison with NaN
   * is false, and the bounds test as written lets the request through.
   */
  lemma EmptyFieldPassesAsWritten()
    ensures ParseInt("") == NaN && !OutOfBoundsAsWritten(ParseInt(""), ParseInt(Decimal(30)))
    ensures SubmitAsWritten(Kruskal, "", Decimal(30), false) == Sent(Form(Kruskal, "", Decimal(30)))
    ensures SubmitOutcome(Kruskal, "", Decimal(30), false) == OutOfBoundsError
  {
    ParseBlankIsNaN("");
    ParseThirty();
  }

  /** A fractional size passes the bounds test as its integer part, while the form still carries the text. */
  lemma FractionPassesAsWritten()
    ensures ParseInt(Decimal(12) + ".5") == Int(12) && !OutOfBoundsAsWritten(ParseInt(Decimal(12) + ".5"), ParseInt(Decimal(30)))
  {
    ParseTwelveAndAHalf();
    ParseThirty();
  }

  lemma ParseThirty()
    ensures ParseInt(Decimal(30)) == Int(30)
  {
    ParseOwnNumeral(30);
  }

  lemma ParseTwelveAndAHalf()
    ensures ParseInt(Decimal(12) + ".5") == Int(12)
  {
    var x := Decimal(12) + ".5";
    assert x[|Decimal(12)|] == '.';
    TrimStartSkips("", x);
    assert "" + x == x;
    ParseNonNegative(12, ".5");
  }

  /** A size is acceptable when it parsed to an integer in [2, 300]. */
  predicate InRange(v: ParsedInt)
  {
    v.Int? && MinDim <= v.n <= MaxDim
  }

  /** The bounds test as intended: anything but two integers in [2, 300] is out of bounds. */
  predicate OutOfBounds(rows: ParsedInt, cols: ParsedInt)
  {
    !(InRange(rows) && InRange(cols))
  }

  /** On numbers the intended test and the one as written agree; they differ only on NaN. */
  lemma OutOfBoundsAgreesOnNumbers(rows: ParsedInt, cols: ParsedInt)
    ensures rows.Int? && cols.Int? ==> (OutOfBounds(rows, cols) <==> OutOfBoundsAsWritten(rows, cols))
    ensures OutOfBoundsAsWritten(rows, cols) ==> OutOfBounds(rows, cols)
  {
  }

  /**
   * `isSubmitDisabled`: a submission in flight always disables the button,
   * image mode keeps it disabled until an image is chosen, and the other
   * modes enable it whenever nothing is loading.
   */
  predicate SubmitDisabled(loading: bool, genType: Algorithm, hasImage: bool): (d: bool)
    ensures loading ==> d
    ensures !d && genType == Image ==> hasImage
    ensures !loading && genType != Image ==> !d
  {
    loading || (genType == Image && !hasImage)
  }

  datatype Error = OutOfBoundsMessage | ImageRequiredMessage

  /** What the intended checks lead to. */
  datatype Outcome = OutOfBoundsError | ImageRequired | Generate(rows: int, cols: int)

  /**
   * The checks of `handleSubmit` as intended, on the texts of the size
   * fields: bounds first, rejecting anything that does not parse to an
   * integer in [2, 300], then the image, then generation with the parsed
   * sizes.
   */
  function SubmitOutcome(genType: Algorithm, rowsText: string, colsText: string, image: bool): (o: Outcome)
    ensures var rows, cols := ParseInt(rowsText), ParseInt(colsText);
      (o.Generate? <==> InRange(rows) && InRange(cols) && (genType == Image ==> image)) &&
      (o.Generate? ==> MinDim <= o.rows <= MaxDim && MinDim <= o.cols <= MaxDim && rows == Int(o.rows) && cols == Int(o.cols)) &&
      (o == ImageRequired <==> !OutOfBounds(rows, cols) && genType == Image && !image)
  {
    var rows, cols := ParseInt(rowsText), ParseInt(colsText);
    if OutOfBounds(rows, cols) then OutOfBoundsError
    else if genType == Image && !image then ImageRequired
    else Generate(rows.n, cols.n)
  }

  /** The form `executeGeneration` receives: the hidden type field and the raw text of both size fields. */
  datatype Form = Form(genType: Algorithm, rows: string, cols: string)

  /** What `handleSubmit` as written does: an error, or the form sent as it stands. */
  datatype Submitted = Refused(error: Error) | Sent(form: Form)

  /** `handleSubmit` as written: the bounds test on the `parseInt` results, then the image, then the form is sent. */
  function SubmitAsWritten(genType: Algorithm, rowsText: string, colsText: string, image: bool): Submitted
  {
    if OutOfBoundsAsWritten(ParseInt(rowsText), ParseInt(colsText)) then Refused(OutOfBoundsMessage)
    else if genType == Image && !image then Refused(ImageRequiredMessage)
    else Sent(Form(genType, rowsText, colsText))
  }

  /**
   * The handler as written sends whatever the intended checks accept, and
   * when both fields parse to numbers the two agree on every submission;
   * they part only on a field that parses to NaN, which the handler as
   * written sends.
   */
  lemma AsWrittenAgreesOnNumbers(genType: Algorithm, rowsText: string, colsText: string, image: bool)
    ensures SubmitOutcome(genType, rowsText, colsText, image).Generate? ==>
              SubmitAsWritten(genType, rowsText, colsText, image) == Sent(Form(genType, rowsText, colsText))
    ensures ParseInt(rowsText).Int? && ParseInt(colsText).Int? ==>
              match SubmitOutcome(genType, rowsText, colsText, image)
              case OutOfBoundsError => SubmitAsWritten(genType, rowsText, colsText, image) == Refused(OutOfBoundsMessage)
              case ImageRequired => SubmitAsWritten(genType, rowsText, colsText, image) == Refused(ImageRequiredMessage)
              case Generate(_, _) => SubmitAsWritten(genType, rowsText, colsText, image).Sent?
  {
    OutOfBoundsAgreesOnNumbers(ParseInt(rowsText), ParseInt(colsText));
  }

  /**
   * An enabled button and sizes in range, typed as plain numerals, always
   * reach generation with those sizes.
   */
  lemma EnabledSubmitGenerates(loading: bool, genType: Algorithm, hasImage: bool, rows: int, cols: int)
    requires !SubmitDisabled(loading, genType, hasImage)
    requires MinDim <= rows <= MaxDim && MinDim <= cols <= MaxDim
    ensures SubmitOutcome(genType, Decimal(rows), Decimal(cols), hasImage) == Generate(rows, cols)
  {
    ParseOwnNumeral(rows);
    ParseOwnNumeral(cols);
  }

  /** The same submission as written sends the form with those numerals. */
  lemma EnabledSubmitSends(loading: bool, genType: Algorithm, hasImage: bool, rows: int, cols: int)
    requires !SubmitDisabled(loading, genType, hasImage)
    requires MinDim <= rows <= MaxDim && MinDim <= cols <= MaxDim
    ensures SubmitAsWritten(genType, Decimal(rows), Decimal(cols), hasImage) == Sent(Form(genType, Decimal(rows), Decimal(cols)))
  {
    EnabledSubmitGenerates(loading, genType, hasImage, rows, cols);
    AsWrittenAgreesOnNumbers(genType, Decimal(rows), Decimal(cols), hasImage);
  }

  /** The bare numeral of a natural number parses back to it. */
  lemma ParseOwnNumeral(n: nat)
    ensures ParseInt(Decimal(n)) == Int(n)
  {
    ParseNumeral("", n, "");
    assert "" + Numeral(n) + "" == Decimal(n);
  }

  /** The page's state. */
  class Home {
    var genType: Algorithm
    var hasImage: bool
    var dims: Dims
    var error: Option<Error>
    /** The forms passed to `executeGeneration`, in order. */
    var requests: seq<Form>

    /** The initial state: image mode, no image, 30 by 30, no error, nothing requested. */
    constructor ()
      ensures genType == Image && !hasImage && dims == Dims(30, 30) && error == None && requests == []
    {
      genType := Image;
      hasImage := false;
      dims := Dims(30, 30);
      error := None;
      requests := [];
    }

    /** `onImageChange`: the file input decides `hasImage`; a loaded image sets the size. */
    method OnImageChange(file: Option<(int, int)>)
      requires file.Some? ==> file.value.0 > 0 && file.value.1 > 0
      modifies this`hasImage, this`dims
      ensures hasImage == file.Some?
      ensures file.None? ==> dims == old(dims)
      ensures file.Some? ==> dims == ImageDims(file.value.0, file.value.1)
    {
      if file.Some? {
        dims := ImageDims(file.value.0, file.value.1);
      }
      hasImage := file.Some?;
    }

    /**
     * `handleSubmit` as written, with the text of the two size fields and
     * whether the form holds an image: the size state is clamped; the bounds
     * test on the `parseInt` results, then the image check, may set an error
     * and send nothing; otherwise the form is sent with the fields' text as
     * it stands, NaN and fractions included.
     */
    method HandleSubmit(rowsText: string, colsText: string, image: bool)
      modifies this`dims, this`error, this`requests
      ensures dims == Clamped(old(dims))
      ensures match SubmitAsWritten(genType, rowsText, colsText, image)
        case Refused(e) => error == Some(e) && requests == old(requests)
        case Sent(f) => error == old(error) && requests == old(requests) + [f]
    {
      dims := Clamped(dims);
      var rows := ParseInt(rowsText);
      var cols := ParseInt(colsText);
      if Below(rows, MinDim) || Above(rows, MaxDim) || Below(cols, MinDim) || Above(cols, MaxDim) {
        error := Some(OutOfBoundsMessage);
        return;
      }
      if genType == Image && !image {
        error := Some(ImageRequiredMessage);
        return;
      }
      requests := requests + [Form(genType, rowsText, colsText)];
    }
  }
}
