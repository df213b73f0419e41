/** Mutation tokens such as "C123T": the ancestral base, the position in
    decimal, the derived base. The repository's own formatter and parser are
    not part of this model; this codec stands in for them, and its round trip
    (every formatted triple parses back to itself) is proved rather than
    assumed. */
module MutationCodec {
  import opened Wrappers
  import opened Types

  predicate IsDigit(c: char) {
    '0' <= c <= '9'
  }

  predicate AllDigits(s: string) {
    forall k :: 0 <= k < |s| ==> IsDigit(s[k])
  }

  function DigitChar(d: nat): (c: char)
    requires d < 10
    ensures IsDigit(c) && c as int - '0' as int == d
  {
    ('0' as int + d) as char
  }

  /** The decimal spelling of `n`, without leading zeros. */
  function Decimal(n: nat): (s: string)
    ensures |s| > 0 && AllDigits(s)
  {
    if n < 10 then [DigitChar(n)] else Decimal(n / 10) + [DigitChar(n % 10)]
  }

  /** The value of a string of decimal digits (leading zeros allowed). */
  function DecimalValue(s: string): nat
    requires AllDigits(s)
  {
    if s == [] then 0
    else DecimalValue(s[..|s| - 1]) * 10 + (s[|s| - 1] as int - '0' as int)
  }

  lemma {:induction false} DecimalRoundTrip(n: nat)
    ensures DecimalValue(Decimal(n)) == n
  {
    var s := Decimal(n);
    if n >= 10 {
      DecimalRoundTrip(n / 10);
      assert s[..|s| - 1] == Decimal(n / 10);
    }
  }

  function Format(m: Mut): (t: string)
    ensures |t| >= 3 && t[0] == m.anc && t[|t| - 1] == m.der
    ensures AllDigits(t[1..|t| - 1])
  {
    [m.anc] + Decimal(m.pos) + [m.der]
  }

  /** Reads a token back; None when it is not a character, at least one
      decimal digit and a character. */
  function Parse(t: string): (r: Option<Mut>)
    ensures r.Some? <==> |t| >= 3 && AllDigits(t[1..|t| - 1])
    ensures r.Some? ==> r.value.anc == t[0] && r.value.der == t[|t| - 1]
  {
    if |t| >= 3 && AllDigits(t[1..|t| - 1])
    then Some(Mut(t[0], DecimalValue(t[1..|t| - 1]), t[|t| - 1]))
    else None
  }

  lemma {:induction false} ParseFormat(m: Mut)
    ensures Parse(Format(m)) == Some(m)
  {
    var t := Format(m);
    assert t[1..|t| - 1] == Decimal(m.pos);
    DecimalRoundTrip(m.pos);
  }

  /** A token that parses, or the error naming it. */
  function ParseMutationOrThrow(t: string): (r: Result<Mut, PlaceError>)
    ensures r.Ok? <==> Parse(t).Some?
    ensures r.Ok? ==> r.value == Parse(t).value
    ensures r.Err? ==> r.error == Unparsable(t)
  {
    match Parse(t)
    case Some(m) => Ok(m)
    case None => Err(Unparsable(t))
  }

  /** Formats each triple, keeping their order. */
  function FormatAll(ms: seq<Mut>): (ts: seq<string>)
    ensures |ts| == |ms|
    ensures forall k :: 0 <= k < |ms| ==> ts[k] == Format(ms[k])
  {
    seq(|ms|, k requires 0 <= k < |ms| => Format(ms[k]))
  }
}
