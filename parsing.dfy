/** The parsing primitives the ACL decoders are built from: nom's complete-input
    `tag_no_case`, `space1`, `many0` and `many1`, and a stand-in for the host
    codec's `astring` and `mailbox` parsers that accepts the atom form of an
    astring only. */
module Parsing {
  import opened Bytes
  import opened AclTypes

  /** Outcome of a parser: failure, or the unconsumed rest of the input and a value. */
  datatype ParseResult<+T> = Failure | Success(remaining: seq<byte>, value: T)

  /** `r` is what is left of `s` after consuming some prefix of it. */
  predicate IsSuffix(r: seq<byte>, s: seq<byte>) {
    |r| <= |s| && s[|s| - |r|..] == r
  }

  /** `r` is what is left of `s` after consuming a non-empty prefix of it. */
  predicate IsProperSuffix(r: seq<byte>, s: seq<byte>) {
    |r| < |s| && s[|s| - |r|..] == r
  }

  /** Consuming a prefix and then another leaves a suffix of the original. */
  lemma SuffixTransitive(a: seq<byte>, b: seq<byte>, c: seq<byte>)
    requires IsSuffix(a, b) && IsSuffix(b, c)
    ensures IsSuffix(a, c)
    ensures IsProperSuffix(a, b) || IsProperSuffix(b, c) ==> IsProperSuffix(a, c)
  {
    assert c[|c| - |a|..] == c[|c| - |b|..][|b| - |a|..];
  }

  /** A non-empty sequence is its head followed by its tail. */
  lemma HeadTail<T>(s: seq<T>)
    requires s != []
    ensures [s[0]] + s[1..] == s
  {
  }

  /** What follows a prefix is a suffix. */
  lemma ConcatSuffix(p: seq<byte>, t: seq<byte>)
    ensures IsSuffix(t, p + t)
    ensures |p| > 0 ==> IsProperSuffix(t, p + t)
  {
    assert (p + t)[|p|..] == t;
  }

  /** A parser that, whenever it succeeds, consumes at least one byte. */
  ghost predicate Consumes<T>(p: seq<byte> -> ParseResult<T>) {
    forall s :: p(s).Success? ==> IsProperSuffix(p(s).remaining, s)
  }

  // ---------------------------------------------------------------------------
  // Byte classes

  /** Space or horizontal tab: what nom's `space1` accepts. */
  predicate IsBlank(b: byte) {
    b == SP || b == HTAB
  }

  /** ASTRING-CHAR of RFC 3501 section 9: a 7-bit CHAR that is not a control,
      not SP and not one of `(`, `)`, `{`, `%`, `*`, `"`, `\`. */
  predicate IsAstringChar(b: byte) {
    0x21 <= b <= 0x7E &&
    b != '(' as int && b != ')' as int && b != '{' as int &&
    b != '%' as int && b != '*' as int && b != '"' as int && b != '\\' as int
  }

  /** A non-empty run of spaces and tabs. */
  predicate IsSeparator(w: seq<byte>) {
    |w| > 0 && forall i | 0 <= i < |w| :: IsBlank(w[i])
  }

  /** A well-formed atom token: one or more ASTRING-CHARs. */
  predicate IsAtom(t: seq<byte>) {
    |t| > 0 && forall i | 0 <= i < |t| :: IsAstringChar(t[i])
  }

  /** `rest` cannot extend the token just before it. */
  predicate EndsToken(rest: seq<byte>) {
    rest == [] || !IsAstringChar(rest[0])
  }

  /** The two byte classes the primitives take runs of. */
  datatype ByteClass = Blank | AstringChar

  predicate InClass(c: ByteClass, b: byte) {
    match c
    case Blank => IsBlank(b)
    case AstringChar => IsAstringChar(b)
  }

  /** Length of the longest prefix of `s` whose bytes are all in the class. */
  function SpanLen(s: seq<byte>, c: ByteClass): (n: nat)
    ensures n <= |s|
    ensures forall i | 0 <= i < n :: InClass(c, s[i])
    ensures n < |s| ==> !InClass(c, s[n])
  {
    if s == [] || !InClass(c, s[0]) then 0 else 1 + SpanLen(s[1..], c)
  }

  /** The span over `run + t` is `run` itself when `t` does not continue it. */
  lemma {:induction false} SpanLenOfRun(run: seq<byte>, t: seq<byte>, c: ByteClass)
    requires forall i | 0 <= i < |run| :: InClass(c, run[i])
    requires t == [] || !InClass(c, t[0])
    ensures SpanLen(run + t, c) == |run|
  {
    var s := run + t;
    var n := SpanLen(s, c);
    assert forall i | 0 <= i < |run| :: s[i] == run[i];
    assert |run| < |s| ==> s[|run|] == t[0];
  }

  // ---------------------------------------------------------------------------
  // nom primitives (complete input)

  /** `tag_no_case(tag)`: the input starts with `tag` up to ASCII letter case. */
  function TagNoCase(tag: seq<byte>, s: seq<byte>): (r: ParseResult<seq<byte>>)
    ensures r.Success? <==> |s| >= |tag| && IsCaseVariant(s[..|tag|], tag)
    ensures r.Success? ==> r.value + r.remaining == s && |r.value| == |tag|
    ensures r.Success? && |tag| > 0 ==> IsProperSuffix(r.remaining, s)
  {
    if |s| >= |tag| && IsCaseVariant(s[..|tag|], tag) then
      assert s[..|tag|] + s[|tag|..] == s;
      ConcatSuffix(s[..|tag|], s[|tag|..]);
      Success(s[|tag|..], s[..|tag|])
    else Failure
  }

  /** `space1`: one or more spaces or tabs, as many as there are. */
  function Space1(s: seq<byte>): (r: ParseResult<seq<byte>>)
    ensures r.Failure? ==> s == [] || !IsBlank(s[0])
    ensures r.Success? ==>
              r.value + r.remaining == s && IsSeparator(r.value) &&
              |r.value| == SpanLen(s, Blank) && IsProperSuffix(r.remaining, s) &&
              (r.remaining == [] || !IsBlank(r.remaining[0]))
  {
    var n := SpanLen(s, Blank);
    if n == 0 then Failure else
      assert s[..n] + s[n..] == s;
      ConcatSuffix(s[..n], s[n..]);
      Success(s[n..], s[..n])
  }

  /** Stand-in for the host's `astring`: the longest non-empty run of ASTRING-CHARs. */
  function Astring(s: seq<byte>): (r: ParseResult<AString>)
    ensures r.Failure? ==> s == [] || !IsAstringChar(s[0])
    ensures r.Success? ==>
              r.value.bytes + r.remaining == s && IsAtom(r.value.bytes) &&
              IsProperSuffix(r.remaining, s) &&
              EndsToken(r.remaining)
  {
    var n := SpanLen(s, AstringChar);
    if n == 0 then Failure else
      assert s[..n] + s[n..] == s;
      ConcatSuffix(s[..n], s[n..]);
      Success(s[n..], AString(s[..n]))
  }

  /** Stand-in for the host's `mailbox`: an astring taken as the mailbox name. */
  function MailboxName(s: seq<byte>): (r: ParseResult<Mailbox>)
    ensures r.Success? <==> |s| > 0 && IsAstringChar(s[0])
    ensures r.Success? ==>
              r.value.name + r.remaining == s && IsAtom(r.value.name) &&
              IsProperSuffix(r.remaining, s) &&
              EndsToken(r.remaining)
  {
    match Astring(s)
    case Failure => Failure
    case Success(rest, a) => Success(rest, Mailbox(a.bytes))
  }

  /** `tag_no_case` accepts any case variant of the tag and consumes exactly it. */
  lemma TagNoCaseOfVariant(tag: seq<byte>, k: seq<byte>, t: seq<byte>)
    requires IsCaseVariant(k, tag)
    ensures TagNoCase(tag, k + t) == Success(t, k)
  {
    assert (k + t)[..|tag|] == k;
    assert (k + t)[|tag|..] == t;
  }

  /** `space1` takes a whole separator run and nothing after it. */
  lemma Space1OfRun(w: seq<byte>, t: seq<byte>)
    requires IsSeparator(w)
    requires t == [] || !IsBlank(t[0])
    ensures Space1(w + t) == Success(t, w)
  {
    SpanLenOfRun(w, t, Blank);
    assert (w + t)[..|w|] == w;
    assert (w + t)[|w|..] == t;
  }

  /** `astring` takes a whole atom when the byte after it cannot continue it. */
  lemma AstringOfAtom(a: AString, t: seq<byte>)
    requires IsAtom(a.bytes)
    requires EndsToken(t)
    ensures Astring(a.bytes + t) == Success(t, a)
  {
    SpanLenOfRun(a.bytes, t, AstringChar);
    assert (a.bytes + t)[..|a.bytes|] == a.bytes;
    assert (a.bytes + t)[|a.bytes|..] == t;
  }

  /** `many0(p)`: apply `p` until it first fails, collecting the values in order. */
  function Many0<T>(p: seq<byte> -> ParseResult<T>, s: seq<byte>): (r: (seq<T>, seq<byte>))
    requires Consumes(p)
    ensures IsSuffix(r.1, s)
    ensures p(r.1).Failure?
    ensures r.0 == [] <==> r.1 == s
    ensures |r.0| <= |s| - |r.1|
    decreases |s|
  {
    match p(s)
    case Failure => ([], s)
    case Success(rest, v) =>
      var (vs, rem) := Many0(p, rest);
      ([v] + vs, rem)
  }

  /** `many0(p)` when `p` fails at once: nothing collected, nothing consumed. */
  lemma Many0Stop<T>(p: seq<byte> -> ParseResult<T>, s: seq<byte>)
    requires Consumes(p) && p(s).Failure?
    ensures Many0(p, s) == ([], s)
  {
  }

  /** `many0(p)` when `p` succeeds: its value, then `many0(p)` on the rest. */
  lemma Many0Step<T>(p: seq<byte> -> ParseResult<T>, s: seq<byte>, v: T, rest: seq<byte>)
    requires Consumes(p) && p(s) == Success(rest, v)
    ensures |rest| < |s|
    ensures Many0(p, s) == ([v] + Many0(p, rest).0, Many0(p, rest).1)
  {
  }

  /** `many1(p)`: fails when `p` fails at once, and otherwise is `many0(p)`. */
  function Many1<T>(p: seq<byte> -> ParseResult<T>, s: seq<byte>): (r: ParseResult<seq<T>>)
    requires Consumes(p)
    ensures r.Success? <==> p(s).Success?
    ensures r.Success? ==> r.value == Many0(p, s).0 && r.remaining == Many0(p, s).1
    ensures r.Success? ==> |r.value| >= 1 && IsProperSuffix(r.remaining, s) && p(r.remaining).Failure?
  {
    match p(s)
    case Failure => Failure
    case Success(rest, v) =>
      var (vs, rem) := Many0(p, rest);
      Success(rem, [v] + vs)
  }
}
