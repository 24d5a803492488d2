/**
  The per-line rule of `read_file`: a line is split on whitespace; a line with
  exactly two tokens becomes an edge once both tokens parse as `u64`, any other
  token count is skipped, and a token that does not parse aborts the run.

  Rust's `str::split_whitespace` and `u64::from_str` are modelled here as well,
  because the rule is only as precise as they are.
*/
module Parser {
  import opened Results

  /** Largest value of Rust's `u64`. */
  const U64_MAX: nat := 0xFFFF_FFFF_FFFF_FFFF

  // ---------------------------------------------------------------------------
  // Splitting a line on whitespace
  // ---------------------------------------------------------------------------

  /** The Unicode White_Space property, which `char::is_whitespace` tests. */
  predicate IsWhitespace(c: char) {
    || ('\t' <= c <= '\r')
    || c == ' '
    || c == '\U{85}'
    || c == '\U{A0}'
    || c == '\U{1680}'
    || ('\U{2000}' <= c <= '\U{200A}')
    || c == '\U{2028}'
    || c == '\U{2029}'
    || c == '\U{202F}'
    || c == '\U{205F}'
    || c == '\U{3000}'
  }

  /** A token: a non-empty run of non-whitespace characters. */
  predicate IsToken(t: string) {
    |t| > 0 && forall i :: 0 <= i < |t| ==> !IsWhitespace(t[i])
  }

  /** Length of the longest whitespace-free prefix of `s`. */
  function WordLength(s: string): (n: nat)
    ensures n <= |s|
    ensures forall i :: 0 <= i < n ==> !IsWhitespace(s[i])
    ensures n < |s| ==> IsWhitespace(s[n])
  {
    if |s| == 0 || IsWhitespace(s[0]) then 0 else 1 + WordLength(s[1..])
  }

  /** `str::split_whitespace`: the maximal whitespace-free runs of `line`, left to right. */
  function Tokens(line: string): (ts: seq<string>)
    ensures forall i :: 0 <= i < |ts| ==> IsToken(ts[i])
    decreases |line|
  {
    if |line| == 0 then []
    else if IsWhitespace(line[0]) then Tokens(line[1..])
    else
      var n := WordLength(line);
      [line[..n]] + Tokens(line[n..])
  }

  /** The tokens written out again, separated by single spaces. */
  function Join(ts: seq<string>): string
    decreases |ts|
  {
    if |ts| == 0 then ""
    else if |ts| == 1 then ts[0]
    else ts[0] + " " + Join(ts[1..])
  }

  /** The characters of `s` that are not whitespace, in order. */
  function NonWhitespace(s: string): string
    decreases |s|
  {
    if |s| == 0 then ""
    else (if IsWhitespace(s[0]) then "" else [s[0]]) + NonWhitespace(s[1..])
  }

  /** All tokens run together. */
  function Concat(ts: seq<string>): string
    decreases |ts|
  {
    if |ts| == 0 then "" else ts[0] + Concat(ts[1..])
  }

  /** A whitespace-free prefix that ends at whitespace or at the end of `s` is the longest one. */
  lemma {:induction false} WordLengthAt(s: string, k: nat)
    requires k <= |s|
    requires forall i :: 0 <= i < k ==> !IsWhitespace(s[i])
    requires k == |s| || IsWhitespace(s[k])
    ensures WordLength(s) == k
    decreases k
  {
    if k > 0 {
      WordLengthAt(s[1..], k - 1);
    }
  }

  /** A token followed by whitespace or by nothing is split off as the first token. */
  lemma TokensOfWordThen(w: string, rest: string)
    requires IsToken(w)
    requires |rest| == 0 || IsWhitespace(rest[0])
    ensures Tokens(w + rest) == [w] + Tokens(rest)
  {
    var s := w + rest;
    WordLengthAt(s, |w|);
    var n := WordLength(s);
    assert s[..n] == w;
    assert s[n..] == rest;
  }

  /** Splitting undoes joining: the tokens of a joined token list are that list. */
  lemma {:induction false} TokensOfJoin(ts: seq<string>)
    requires forall i :: 0 <= i < |ts| ==> IsToken(ts[i])
    ensures Tokens(Join(ts)) == ts
    decreases |ts|
  {
    if |ts| == 0 {
    } else if |ts| == 1 {
      TokensOfWordThen(ts[0], "");
      assert ts[0] + "" == ts[0];
    } else {
      var tail := Join(ts[1..]);
      TokensOfJoin(ts[1..]);
      assert Join(ts) == ts[0] + (" " + tail);
      TokensOfWordThen(ts[0], " " + tail);
      assert (" " + tail)[1..] == tail;
      assert ts == [ts[0]] + ts[1..];
    }
  }

  /** A run of whitespace, possibly empty. */
  predicate Blank(w: string) {
    forall i :: 0 <= i < |w| ==> IsWhitespace(w[i])
  }

  /** The line `seps[0] + ts[0] + seps[1] + ... + ts[n-1] + seps[n]`. */
  function Interleave(seps: seq<string>, ts: seq<string>): string
    requires |seps| == |ts| + 1
    decreases |ts|
  {
    if |ts| == 0 then seps[0] else seps[0] + ts[0] + Interleave(seps[1..], ts[1..])
  }

  /**
    `line` is the tokens `ts` laid out with the whitespace runs `seps` around
    them: leading and trailing runs may be empty, the runs between two tokens
    may not.
  */
  ghost predicate LaidOut(line: string, seps: seq<string>, ts: seq<string>) {
    && |seps| == |ts| + 1
    && (forall i :: 0 <= i < |seps| ==> Blank(seps[i]))
    && (forall i :: 0 < i < |ts| ==> |seps[i]| > 0)
    && (forall i :: 0 <= i < |ts| ==> IsToken(ts[i]))
    && Interleave(seps, ts) == line
  }

  /** Leading whitespace produces no token. */
  lemma {:induction false} TokensAfterBlank(w: string, rest: string)
    requires Blank(w)
    ensures Tokens(w + rest) == Tokens(rest)
    decreases |w|
  {
    if |w| > 0 {
      assert (w + rest)[0] == w[0];
      assert (w + rest)[1..] == w[1..] + rest;
      TokensAfterBlank(w[1..], rest);
    } else {
      assert w + rest == rest;
    }
  }

  /** Past its leading run and first token, a laid-out line is the rest laid out, starting at whitespace or empty. */
  lemma LaidOutTail(line: string, seps: seq<string>, ts: seq<string>)
    requires LaidOut(line, seps, ts) && |ts| > 0
    ensures LaidOut(Interleave(seps[1..], ts[1..]), seps[1..], ts[1..])
    ensures line == seps[0] + (ts[0] + Interleave(seps[1..], ts[1..]))
    ensures var rest := Interleave(seps[1..], ts[1..]); |rest| == 0 || IsWhitespace(rest[0])
  {
    var rest := Interleave(seps[1..], ts[1..]);
    forall i | 0 < i < |ts[1..]|
      ensures |seps[1..][i]| > 0
    {
      assert seps[1..][i] == seps[i + 1];
    }
    if |ts| > 1 {
      assert |seps[1]| > 0;
      assert rest == seps[1] + (ts[1] + Interleave(seps[2..], ts[2..]));
      assert rest[0] == seps[1][0];
    }
  }

  /** Splitting a laid-out line gives back its tokens, whatever whitespace separates them. */
  lemma {:induction false} TokensOfLaidOut(line: string, seps: seq<string>, ts: seq<string>)
    requires LaidOut(line, seps, ts)
    ensures Tokens(line) == ts
    decreases |ts|
  {
    if |ts| == 0 {
      TokensAfterBlank(seps[0], "");
      assert seps[0] + "" == seps[0];
    } else {
      var rest := Interleave(seps[1..], ts[1..]);
      LaidOutTail(line, seps, ts);
      TokensOfLaidOut(rest, seps[1..], ts[1..]);
      TokensAfterBlank(seps[0], ts[0] + rest);
      TokensOfWordThen(ts[0], rest);
      assert ts == [ts[0]] + ts[1..];
    }
  }

  /** The whitespace runs around the tokens of `line`. */
  function Separators(line: string): (seps: seq<string>)
    ensures |seps| == |Tokens(line)| + 1
    ensures forall i :: 0 <= i < |seps| ==> Blank(seps[i])
    ensures forall i :: 0 < i < |Tokens(line)| ==> |seps[i]| > 0
    ensures |line| > 0 && IsWhitespace(line[0]) ==> |seps[0]| > 0
    decreases |line|
  {
    if |line| == 0 then [""]
    else if IsWhitespace(line[0]) then
      var rest := Separators(line[1..]);
      [[line[0]] + rest[0]] + rest[1..]
    else
      var n := WordLength(line);
      [""] + Separators(line[n..])
  }

  /** Every line is its tokens laid out with its separators. */
  lemma {:induction false} SeparatorsRebuildLine(line: string)
    ensures Interleave(Separators(line), Tokens(line)) == line
    decreases |line|
  {
    var seps := Separators(line);
    var ts := Tokens(line);
    if |line| == 0 {
    } else if IsWhitespace(line[0]) {
      var rest := Separators(line[1..]);
      SeparatorsRebuildLine(line[1..]);
      assert seps[1..] == rest[1..];
      if |ts| == 0 {
        assert line == [line[0]] + line[1..];
      } else {
        assert line[1..] == rest[0] + ts[0] + Interleave(rest[1..], ts[1..]);
        assert line == [line[0]] + line[1..];
      }
    } else {
      var n := WordLength(line);
      SeparatorsRebuildLine(line[n..]);
      assert seps[1..] == Separators(line[n..]);
      assert ts[1..] == Tokens(line[n..]);
      assert line == "" + line[..n] + line[n..];
    }
  }

  /**
    `split_whitespace` characterised: its result is the one token list that,
    laid out with some whitespace runs (non-empty between tokens), is the line.
  */
  lemma TokensCharacterised(line: string, ts: seq<string>)
    ensures Tokens(line) == ts <==> exists seps :: LaidOut(line, seps, ts)
  {
    if Tokens(line) == ts {
      SeparatorsRebuildLine(line);
      assert LaidOut(line, Separators(line), ts);
    }
    if seps :| LaidOut(line, seps, ts) {
      TokensOfLaidOut(line, seps, ts);
    }
  }

  lemma {:induction false} NonWhitespaceAppend(a: string, b: string)
    ensures NonWhitespace(a + b) == NonWhitespace(a) + NonWhitespace(b)
    decreases |a|
  {
    if |a| > 0 {
      assert (a + b)[1..] == a[1..] + b;
      NonWhitespaceAppend(a[1..], b);
    } else {
      assert a + b == b;
    }
  }

  lemma {:induction false} NonWhitespaceOfToken(w: string)
    requires forall i :: 0 <= i < |w| ==> !IsWhitespace(w[i])
    ensures NonWhitespace(w) == w
    decreases |w|
  {
    if |w| > 0 {
      NonWhitespaceOfToken(w[1..]);
      assert w == [w[0]] + w[1..];
    }
  }

  /** Splitting loses exactly the whitespace: the tokens, run together, are the line without its whitespace. */
  lemma {:induction false} TokensKeepNonWhitespace(line: string)
    ensures Concat(Tokens(line)) == NonWhitespace(line)
    decreases |line|
  {
    if |line| == 0 {
    } else if IsWhitespace(line[0]) {
      TokensKeepNonWhitespace(line[1..]);
    } else {
      var n := WordLength(line);
      TokensKeepNonWhitespace(line[n..]);
      assert line == line[..n] + line[n..];
      NonWhitespaceAppend(line[..n], line[n..]);
      NonWhitespaceOfToken(line[..n]);
      var ts := [line[..n]] + Tokens(line[n..]);
      assert ts[1..] == Tokens(line[n..]);
    }
  }

  // ---------------------------------------------------------------------------
  // `u64::from_str`
  // ---------------------------------------------------------------------------

  /** The ways `u64::from_str` can fail (`core::num::IntErrorKind`). */
  datatype IntErrorKind = Empty | InvalidDigit | PosOverflow

  predicate IsDigit(c: char) {
    '0' <= c <= '9'
  }

  predicate AllDigits(s: string) {
    forall i :: 0 <= i < |s| ==> IsDigit(s[i])
  }

  function DigitValue(c: char): nat
    requires IsDigit(c)
  {
    (c as int) - ('0' as int)
  }

  function DigitChar(d: nat): char
    requires d < 10
  {
    ('0' as int + d) as char
  }

  /** The number a string of decimal digits denotes, most significant digit first. */
  function Value(ds: string): nat
    requires AllDigits(ds)
    decreases |ds|
  {
    if |ds| == 0 then 0 else 10 * Value(ds[..|ds| - 1]) + DigitValue(ds[|ds| - 1])
  }

  /** The decimal digits of `n`, without leading zeros. */
  function Decimal(n: nat): string
    decreases n
  {
    if n < 10 then [DigitChar(n)] else Decimal(n / 10) + [DigitChar(n % 10)]
  }

  /**
    The digit loop of `u64::from_str`: each character is first checked to be a
    digit, then the accumulator is multiplied by ten and the digit added, each
    step checked against `u64::MAX`.
  */
  function Accumulate(acc: nat, ds: string): (r: Result<nat, IntErrorKind>)
    requires acc <= U64_MAX
    ensures r.Ok? ==> r.value <= U64_MAX
    ensures r != Err(Empty)
    decreases |ds|
  {
    if |ds| == 0 then Ok(acc)
    else if !IsDigit(ds[0]) then Err(InvalidDigit)
    else if acc * 10 + DigitValue(ds[0]) > U64_MAX then Err(PosOverflow)
    else Accumulate(acc * 10 + DigitValue(ds[0]), ds[1..])
  }

  /** The digits `u64::from_str` reads: the token without one leading '+'. */
  function Magnitude(tok: string): string {
    if |tok| > 0 && tok[0] == '+' then tok[1..] else tok
  }

  /**
    `u64::from_str`: an empty string is `Empty`; a lone sign is `InvalidDigit`;
    one leading '+' is skipped; a '-' is an invalid digit for an unsigned type.
  */
  function ParseU64(tok: string): (r: Result<nat, IntErrorKind>)
    ensures r.Ok? ==> r.value <= U64_MAX
  {
    if |tok| == 0 then Err(Empty)
    else if tok == "+" || tok == "-" then Err(InvalidDigit)
    else Accumulate(0, Magnitude(tok))
  }

  lemma AllDigitsAppend(a: string, b: string)
    requires AllDigits(a) && AllDigits(b)
    ensures AllDigits(a + b)
  {
    assert forall i :: |a| <= i < |a + b| ==> (a + b)[i] == b[i - |a|];
  }

  lemma ValueSnoc(p: string, c: char)
    requires AllDigits(p) && IsDigit(c)
    ensures AllDigits(p + [c])
    ensures Value(p + [c]) == 10 * Value(p) + DigitValue(c)
  {
    AllDigitsAppend(p, [c]);
    assert (p + [c])[..|p|] == p;
  }

  /** Appending digits never makes the value smaller. */
  lemma {:induction false} ValueGrows(p: string, ds: string)
    requires AllDigits(p) && AllDigits(ds)
    ensures AllDigits(p + ds)
    ensures Value(p + ds) >= Value(p)
    decreases |ds|
  {
    AllDigitsAppend(p, ds);
    if |ds| > 0 {
      var q := p + ds[..|ds| - 1];
      ValueGrows(p, ds[..|ds| - 1]);
      assert p + ds == q + [ds[|ds| - 1]];
      ValueSnoc(q, ds[|ds| - 1]);
    } else {
      assert p + ds == p;
    }
  }

  /**
    The checked digit loop, started after the digits `p`, computes the value of
    `p` followed by `ds` exactly when that value fits in a `u64`; a digit string
    whose value does not fit is an overflow.
  */
  lemma {:induction false} AccumulateComputesValue(p: string, ds: string)
    requires AllDigits(p) && Value(p) <= U64_MAX
    ensures Accumulate(Value(p), ds).Ok? <==> AllDigits(ds) && (AllDigitsAppend(p, ds); Value(p + ds) <= U64_MAX)
    ensures Accumulate(Value(p), ds).Ok? ==> AllDigits(ds) && (AllDigitsAppend(p, ds); Accumulate(Value(p), ds).value == Value(p + ds))
    ensures AllDigits(ds) && (AllDigitsAppend(p, ds); Value(p + ds) > U64_MAX) ==> Accumulate(Value(p), ds) == Err(PosOverflow)
    decreases |ds|
  {
    if |ds| == 0 {
      assert p + ds == p;
    } else if !IsDigit(ds[0]) {
    } else {
      var q := p + [ds[0]];
      ValueSnoc(p, ds[0]);
      assert p + ds == q + ds[1..];
      if Value(q) > U64_MAX {
        if AllDigits(ds) {
          ValueGrows(q, ds[1..]);
        }
      } else {
        AccumulateComputesValue(q, ds[1..]);
        if AllDigits(ds[1..]) {
          assert ds == [ds[0]] + ds[1..];
        }
      }
    }
  }

  /**
    `u64::from_str` succeeds exactly on an optional '+' followed by at least one
    decimal digit, with a value no larger than `u64::MAX`, and then yields that
    value; only the empty string is `Empty`.
  */
  lemma ParseU64Accepts(tok: string)
    ensures ParseU64(tok).Ok? <==>
      |Magnitude(tok)| > 0 && AllDigits(Magnitude(tok)) && Value(Magnitude(tok)) <= U64_MAX
    ensures ParseU64(tok).Ok? ==> ParseU64(tok).value == Value(Magnitude(tok))
    ensures ParseU64(tok) == Err(Empty) <==> tok == ""
  {
    var m := Magnitude(tok);
    if tok == "" {
    } else if tok == "+" || tok == "-" {
      assert !IsDigit(tok[0]);
    } else {
      assert ParseU64(tok) == Accumulate(0, m);
      AccumulateComputesValue("", m);
      assert "" + m == m;
    }
  }

  /**
    The checked digit loop stops at the first failure: when `ds[..k]` is its
    longest run of leading digits, the loop overflows if the value of those
    digits does not fit, and otherwise reports the non-digit that ends them.
  */
  lemma {:induction false} AccumulateFirstFailure(p: string, ds: string, k: nat)
    requires AllDigits(p) && Value(p) <= U64_MAX
    requires k <= |ds| && AllDigits(ds[..k]) && (k == |ds| || !IsDigit(ds[k]))
    ensures (AllDigitsAppend(p, ds[..k]); Value(p + ds[..k]) > U64_MAX) ==> Accumulate(Value(p), ds) == Err(PosOverflow)
    ensures (AllDigitsAppend(p, ds[..k]); Value(p + ds[..k]) <= U64_MAX && k < |ds|) ==>
      Accumulate(Value(p), ds) == Err(InvalidDigit)
    decreases k
  {
    AllDigitsAppend(p, ds[..k]);
    if k == 0 {
      assert p + ds[..k] == p;
    } else {
      assert IsDigit(ds[..k][0]);
      var q := p + [ds[0]];
      ValueSnoc(p, ds[0]);
      var rest := ds[1..];
      assert rest[..k - 1] == ds[1..k];
      assert AllDigits(rest[..k - 1]);
      assert p + ds[..k] == q + rest[..k - 1];
      if Value(q) > U64_MAX {
        ValueGrows(q, rest[..k - 1]);
      } else {
        assert k - 1 == |rest| || !IsDigit(rest[k - 1]);
        AccumulateFirstFailure(q, rest, k - 1);
      }
    }
  }

  /**
    Which error `u64::from_str` reports, given the longest run `Magnitude(tok)[..k]`
    of leading digits after the optional '+': an overflow when those digits
    already exceed `u64::MAX`, even if a non-digit follows; otherwise an invalid
    digit when anything follows them; in particular a token with no leading
    digit at all (a lone sign, a '-', a letter) is an invalid digit.
  */
  lemma ParseU64Rejects(tok: string, k: nat)
    requires |tok| > 0
    requires k <= |Magnitude(tok)| && AllDigits(Magnitude(tok)[..k])
    requires k == |Magnitude(tok)| || !IsDigit(Magnitude(tok)[k])
    ensures Value(Magnitude(tok)[..k]) > U64_MAX ==> ParseU64(tok) == Err(PosOverflow)
    ensures Value(Magnitude(tok)[..k]) <= U64_MAX && k < |Magnitude(tok)| ==> ParseU64(tok) == Err(InvalidDigit)
    ensures k == 0 ==> ParseU64(tok) == Err(InvalidDigit)
  {
    var m := Magnitude(tok);
    if tok != "+" && tok != "-" {
      AccumulateFirstFailure("", m, k);
      assert "" + m[..k] == m[..k];
    }
  }

  /** A leading '-' is never accepted by the unsigned parser, whatever follows. */
  lemma NegativeRejected(tok: string)
    requires |tok| > 0 && tok[0] == '-'
    ensures ParseU64(tok) == Err(InvalidDigit)
  {
    assert Magnitude(tok) == tok;
    ParseU64Rejects(tok, 0);
  }

  lemma {:induction false} DecimalDigits(n: nat)
    ensures |Decimal(n)| > 0 && AllDigits(Decimal(n))
    ensures Value(Decimal(n)) == n
    decreases n
  {
    if n >= 10 {
      DecimalDigits(n / 10);
      ValueSnoc(Decimal(n / 10), DigitChar(n % 10));
    } else {
      assert Decimal(n)[..0] == "";
    }
  }

  /** The decimal rendering of a `u64`, with or without a '+', parses back to it; one past `u64::MAX` overflows. */
  lemma ParseDecimal(n: nat)
    ensures n <= U64_MAX ==> ParseU64(Decimal(n)) == Ok(n)
    ensures n <= U64_MAX ==> ParseU64("+" + Decimal(n)) == Ok(n)
    ensures n > U64_MAX ==> ParseU64(Decimal(n)) == Err(PosOverflow)
  {
    DecimalDigits(n);
    var d := Decimal(n);
    assert Magnitude(d) == d;
    assert Magnitude("+" + d) == d;
    ParseU64Accepts(d);
    ParseU64Accepts("+" + d);
    AccumulateComputesValue("", d);
    assert "" + d == d;
  }

  /** A decimal rendering is a single token. */
  lemma DecimalIsToken(n: nat)
    ensures IsToken(Decimal(n))
  {
    DecimalDigits(n);
  }

  // ---------------------------------------------------------------------------
  // Lines to edges
  // ---------------------------------------------------------------------------

  /** What one line of the edge file contributes. */
  datatype LineOutcome =
    | Skipped
    | Parsed(edge: (nat, nat))
    | Rejected(token: string, kind: IntErrorKind)

  /** The fatal failure of a run: the line index, the token that would not parse, and why. */
  datatype ReadError = ReadError(line: nat, token: string, kind: IntErrorKind)

  /** One iteration of the loop in `read_file`; the first token is parsed (and unwrapped) before the second. */
  function ParseLine(line: string): (r: LineOutcome)
    ensures r.Skipped? <==> |Tokens(line)| != 2
    ensures r.Parsed? ==> r.edge.0 <= U64_MAX && r.edge.1 <= U64_MAX
    ensures r.Rejected? ==> r.token in Tokens(line) && ParseU64(r.token) == Err(r.kind)
    ensures |Tokens(line)| == 2 ==>
      (r.Parsed? <==> ParseU64(Tokens(line)[0]).Ok? && ParseU64(Tokens(line)[1]).Ok?)
    ensures r.Parsed? ==>
      |Tokens(line)| == 2 && r.edge == (ParseU64(Tokens(line)[0]).value, ParseU64(Tokens(line)[1]).value)
    ensures r.Rejected? ==>
      |Tokens(line)| == 2 && r.token == (if ParseU64(Tokens(line)[0]).Err? then Tokens(line)[0] else Tokens(line)[1])
  {
    var parts := Tokens(line);
    if |parts| != 2 then Skipped
    else match ParseU64(parts[0])
      case Err(k) => Rejected(parts[0], k)
      case Ok(a) =>
        match ParseU64(parts[1])
        case Err(k) => Rejected(parts[1], k)
        case Ok(b) => Parsed((a, b))
  }

  /**
    `read_file` after the I/O: the edges of all two-token lines in order, or
    the first token that does not parse, which aborts the run.
  */
  function ReadEdges(lines: seq<string>): Result<seq<(nat, nat)>, ReadError>
    decreases |lines|
  {
    if |lines| == 0 then Ok([]) else Prepend(ParseLine(lines[0]), ReadEdges(lines[1..]))
  }

  /** The outcome of a file whose first line has outcome `first` and whose other lines read as `rest`. */
  function Prepend(first: LineOutcome, rest: Result<seq<(nat, nat)>, ReadError>): Result<seq<(nat, nat)>, ReadError> {
    match first
    case Rejected(tok, kind) => Err(ReadError(0, tok, kind))
    case Skipped => ShiftError(rest)
    case Parsed(e) => if rest.Ok? then Ok([e] + rest.value) else ShiftError(rest)
  }

  /**
    A run succeeds exactly when no line is rejected; a failed run names the
    first rejected line and its token; a successful run yields at most one edge
    per line, each parsed from some line.
  */
  lemma {:induction false} ReadEdgesOutcome(lines: seq<string>)
    ensures ReadEdges(lines).Ok? <==> forall i :: 0 <= i < |lines| ==> !ParseLine(lines[i]).Rejected?
    ensures ReadEdges(lines).Err? ==>
      var e := ReadEdges(lines).error;
      && e.line < |lines|
      && ParseLine(lines[e.line]) == Rejected(e.token, e.kind)
      && forall i :: 0 <= i < e.line ==> !ParseLine(lines[i]).Rejected?
    ensures ReadEdges(lines).Ok? ==> |ReadEdges(lines).value| <= |lines|
    ensures ReadEdges(lines).Ok? ==>
      forall e :: e in ReadEdges(lines).value ==> exists i :: 0 <= i < |lines| && ParseLine(lines[i]) == Parsed(e)
    decreases |lines|
  {
    if |lines| > 0 {
      ReadEdgesOutcome(lines[1..]);
    }
  }

  /** Renumbers an error found after the first line. */
  function ShiftError(r: Result<seq<(nat, nat)>, ReadError>): Result<seq<(nat, nat)>, ReadError> {
    match r
    case Ok(es) => Ok(es)
    case Err(e) => Err(e.(line := e.line + 1))
  }

  /** The outcome of reading two parts of a file, the second starting at line `offset`. */
  function Combine(first: Result<seq<(nat, nat)>, ReadError>, second: Result<seq<(nat, nat)>, ReadError>,
                   offset: nat): Result<seq<(nat, nat)>, ReadError>
  {
    match first
    case Err(e) => Err(e)
    case Ok(x) =>
      match second
      case Err(e) => Err(e.(line := e.line + offset))
      case Ok(y) => Ok(x + y)
  }

  /** Putting a line in front commutes with appending a second block. */
  lemma PrependCombine(first: LineOutcome, x: Result<seq<(nat, nat)>, ReadError>,
                       y: Result<seq<(nat, nat)>, ReadError>, offset: nat)
    ensures Prepend(first, Combine(x, y, offset)) == Combine(Prepend(first, x), y, offset + 1)
  {
    if first.Parsed? && x.Ok? && y.Ok? {
      assert [first.edge] + (x.value + y.value) == ([first.edge] + x.value) + y.value;
    }
  }

  /** Reading a file in two parts: the edges of the second part follow those of the first, and an error in the second part is renumbered. */
  lemma {:induction false} ReadEdgesAppend(a: seq<string>, b: seq<string>)
    ensures ReadEdges(a + b) == Combine(ReadEdges(a), ReadEdges(b), |a|)
    decreases |a|
  {
    var rb := ReadEdges(b);
    if |a| == 0 {
      assert a + b == b;
      match rb
      case Err(e) => assert e.(line := e.line + |a|) == e;
      case Ok(y) => assert [] + y == y;
    } else {
      var ab := a + b;
      assert ab[0] == a[0];
      assert ab[1..] == a[1..] + b;
      ReadEdgesAppend(a[1..], b);
      PrependCombine(ParseLine(a[0]), ReadEdges(a[1..]), rb, |a| - 1);
    }
  }


  /** A line without exactly two tokens changes nothing: the run fails or succeeds as without it, with the same edges. */
  lemma SkippedLineChangesNothing(a: seq<string>, line: string, b: seq<string>)
    requires |Tokens(line)| != 2
    ensures ReadEdges(a + [line] + b).Ok? <==> ReadEdges(a + b).Ok?
    ensures ReadEdges(a + [line] + b).Ok? ==> ReadEdges(a + [line] + b).value == ReadEdges(a + b).value
  {
    assert a + [line] + b == a + ([line] + b);
    assert ([line] + b)[1..] == b;
    ReadEdgesAppend(a, [line] + b);
    ReadEdgesAppend(a, b);
  }

  /**
    A file of one line: a skipped line yields no edge, a parsed line yields
    its edge, a rejected line aborts the run at line 0. With ReadEdgesAppend
    this fixes the result of reading any file.
  */
  lemma ReadOneLine(line: string)
    ensures ParseLine(line).Skipped? ==> ReadEdges([line]) == Ok([])
    ensures ParseLine(line).Parsed? ==> ReadEdges([line]) == Ok([ParseLine(line).edge])
    ensures ParseLine(line).Rejected? ==>
      ReadEdges([line]) == Err(ReadError(0, ParseLine(line).token, ParseLine(line).kind))
  {
    var none: seq<string> := [];
    assert [line][1..] == none;
    if ParseLine(line).Parsed? {
      assert [ParseLine(line).edge] + [] == [ParseLine(line).edge];
    }
  }

  /** A line that parses contributes its edge, in the place of the line among the others. */
  lemma ParsedLineContributes(a: seq<string>, line: string, b: seq<string>)
    requires ParseLine(line).Parsed?
    ensures ReadEdges(a + [line] + b).Ok? <==> ReadEdges(a + b).Ok?
    ensures ReadEdges(a + [line] + b).Ok? ==>
      && ReadEdges(a).Ok? && ReadEdges(b).Ok?
      && ReadEdges(a + [line] + b).value == ReadEdges(a).value + [ParseLine(line).edge] + ReadEdges(b).value
  {
    assert a + [line] + b == a + ([line] + b);
    ReadEdgesAppend(a, [line] + b);
    ReadEdgesAppend([line], b);
    ReadEdgesAppend(a, b);
    ReadOneLine(line);
  }

  /** One edge as a line of the edge file: two decimal ids separated by a space. */
  function RenderEdge(e: (nat, nat)): string {
    Decimal(e.0) + " " + Decimal(e.1)
  }

  /** An edge list as the lines of an edge file. */
  function RenderEdges(edges: seq<(nat, nat)>): seq<string>
    decreases |edges|
  {
    if |edges| == 0 then [] else [RenderEdge(edges[0])] + RenderEdges(edges[1..])
  }

  /** A rendered edge is a two-token line that parses back to the edge. */
  lemma ParseRenderedEdge(e: (nat, nat))
    requires e.0 <= U64_MAX && e.1 <= U64_MAX
    ensures ParseLine(RenderEdge(e)) == Parsed(e)
  {
    DecimalIsToken(e.0);
    DecimalIsToken(e.1);
    var ts := [Decimal(e.0), Decimal(e.1)];
    assert Join(ts[1..]) == Decimal(e.1);
    assert Join(ts) == RenderEdge(e);
    TokensOfJoin(ts);
    ParseDecimal(e.0);
    ParseDecimal(e.1);
  }

  /** Any whitespace separates tokens: a tab between them, padding around them. */
  lemma TabSeparatedTokens()
    ensures Tokens(" 12\t34\r") == ["12", "34"]
  {
    var seps := [" ", "\t", "\r"];
    var ts := ["12", "34"];
    assert Interleave(seps, ts) == " 12\t34\r";
    TokensOfLaidOut(" 12\t34\r", seps, ts);
  }

  /** The two ids of that line as `u64::from_str` reads them. */
  lemma TabSeparatedIds()
    ensures ParseU64("12") == Ok(12) && ParseU64("34") == Ok(34)
  {
    assert Magnitude("12") == "12" && "12"[1..] == "2";
    assert Magnitude("34") == "34" && "34"[1..] == "4";
  }

  /** So a tab-separated, padded line is an edge like a space-separated one. */
  lemma TabSeparatedEdge()
    ensures ParseLine(" 12\t34\r") == Parsed((12, 34))
  {
    var line := " 12\t34\r";
    TabSeparatedTokens();
    TabSeparatedIds();
    assert ParseU64(Tokens(line)[0]) == Ok(12) && ParseU64(Tokens(line)[1]) == Ok(34);
  }

  /** A file holding only that line reads as the one edge (12, 34). */
  lemma TabSeparatedRead()
    ensures ReadEdges([" 12\t34\r"]) == Ok([(12, 34)])
  {
    TabSeparatedEdge();
    ReadOneLine(" 12\t34\r");
  }

  /** Writing a `u64` edge list as an edge file and reading it back yields the same list. */
  lemma {:induction false} ReadRenderedEdges(edges: seq<(nat, nat)>)
    requires forall i :: 0 <= i < |edges| ==> edges[i].0 <= U64_MAX && edges[i].1 <= U64_MAX
    ensures ReadEdges(RenderEdges(edges)) == Ok(edges)
    decreases |edges|
  {
    if |edges| > 0 {
      var lines := RenderEdges(edges);
      ParseRenderedEdge(edges[0]);
      ReadRenderedEdges(edges[1..]);
      assert lines[0] == RenderEdge(edges[0]);
      assert lines[1..] == RenderEdges(edges[1..]);
      assert edges == [edges[0]] + edges[1..];
    }
  }
}
