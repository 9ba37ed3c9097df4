/** The string operations the parsers use: `split`, `trim`, and searching for a delimiter. */
module Text {

  /** `char::is_whitespace`: the Unicode White_Space property. */
  predicate IsWhitespace(c: char) {
    || '\U{9}' <= c <= '\U{D}' || c == ' ' || c == '\U{85}' || c == '\U{A0}' || c == '\U{1680}'
    || '\U{2000}' <= c <= '\U{200A}' || c == '\U{2028}' || c == '\U{2029}' || c == '\U{202F}'
    || c == '\U{205F}' || c == '\U{3000}'
  }

  /** Index of the first `c`, or the length when there is none. */
  function Until(t: string, c: char): (n: nat)
    ensures n <= |t| && c !in t[..n] && (n < |t| ==> t[n] == c)
  {
    if t == "" || t[0] == c then 0 else
      var n := Until(t[1..], c);
      assert t[..n + 1] == [t[0]] + t[1..][..n];
      n + 1
  }

  lemma {:induction false} UntilFinds(a: string, c: char, b: string)
    requires c !in a
    ensures Until(a + ([c] + b), c) == |a|
    ensures (a + ([c] + b))[..|a|] == a && (a + ([c] + b))[|a| + 1..] == b
  {
    if a != "" {
      assert (a + ([c] + b))[1..] == a[1..] + ([c] + b);
      UntilFinds(a[1..], c, b);
    }
  }

  /** `str::split(c)`: the pieces between the separators, at least one. */
  function Split(t: string, c: char): (parts: seq<string>)
    ensures |parts| >= 1
    ensures forall i | 0 <= i < |parts| :: c !in parts[i]
    ensures forall i, x | 0 <= i < |parts| && x in parts[i] :: x in t
  {
    var n := Until(t, c);
    if n == |t| then
      assert t == t[..n];
      [t]
    else
      var rest := Split(t[n + 1..], c);
      assert forall x | x in t[..n] :: x in t;
      assert forall x | x in t[n + 1..] :: x in t;
      assert forall i | 1 <= i < |rest| + 1 :: ([t[..n]] + rest)[i] == rest[i - 1];
      [t[..n]] + rest
  }

  lemma SplitAt(a: string, c: char, b: string)
    requires c !in a
    ensures Split(a + ([c] + b), c) == [a] + Split(b, c)
  {
    UntilFinds(a, c, b);
  }

  lemma SplitNone(a: string, c: char)
    requires c !in a
    ensures Split(a, c) == [a]
  {
    assert Until(a, c) == |a|;
  }

  function DropBlanks(t: string): (r: string)
    ensures |r| <= |t| && (r != "" ==> r[0] != ' ')
  {
    if t != "" && t[0] == ' ' then DropBlanks(t[1..]) else t
  }

  function TrimStart(t: string): (r: string)
    ensures r != "" ==> !IsWhitespace(r[0])
    ensures forall x | x in r :: x in t
  {
    if t != "" && IsWhitespace(t[0]) then TrimStart(t[1..]) else t
  }

  function TrimEnd(t: string): (r: string)
    ensures r <= t
    ensures r != "" ==> !IsWhitespace(r[|r| - 1])
  {
    if t != "" && IsWhitespace(t[|t| - 1]) then TrimEnd(t[..|t| - 1]) else t
  }

  /** `str::trim`. */
  function Trim(t: string): (r: string)
    ensures r != "" ==> !IsWhitespace(r[0]) && !IsWhitespace(r[|r| - 1])
    ensures forall x | x in r :: x in t
  {
    TrimEnd(TrimStart(t))
  }

  /** Text that `Trim` leaves alone, or empty. */
  predicate Trimmed(t: string) {
    t != "" ==> !IsWhitespace(t[0]) && !IsWhitespace(t[|t| - 1])
  }

  lemma TrimPadded(before: bool, t: string, after: bool)
    requires t != "" && Trimmed(t)
    ensures Trim((if before then " " else "") + t + (if after then " " else "")) == t
  {
    var u := t + (if after then " " else "");
    var s := (if before then " " else "") + u;
    assert s == (if before then " " else "") + t + (if after then " " else "");
    assert before ==> s[1..] == u;
    assert TrimStart(s) == u;
    assert TrimEnd(t) == t;
    assert after ==> u[..|u| - 1] == t && u[|u| - 1] == ' ';
    assert !after ==> u == t;
  }

  predicate IsAsciiAlphanumeric(c: char) {
    '0' <= c <= '9' || 'a' <= c <= 'z' || 'A' <= c <= 'Z'
  }

  /** `RediSearch DEFAULT_STOPWORDS`, the same 33 words in src/fulltext.rs and src/msmarco/text_match.rs. */
  const STOPWORDS: seq<string> := [
    "a", "an", "and", "are", "as", "at", "be", "but", "by", "for", "if", "in", "into", "is", "it",
    "no", "not", "of", "on", "or", "such", "that", "the", "their", "then", "there", "these",
    "they", "this", "to", "was", "will", "with"
  ]

  /** A clause `@field:value` is cut at the first `:`. */
  lemma FieldReads(field: string, value: string)
    requires ':' !in field
    ensures var t := "@" + (field + ([':'] + value));
            && Until(t[1..], ':') == |field| && t[1..][..|field|] == field
            && |field| + 2 <= |t| && t[|field| + 2..] == value
  {
    var t := "@" + (field + ([':'] + value));
    assert t[1..] == field + ([':'] + value);
    UntilFinds(field, ':', value);
  }

  /** A bracketed body is cut at the first closing character. */
  lemma BodyReads(open: char, body: string, close: char, rest: string)
    requires close !in body
    ensures var u := [open] + (body + ([close] + rest));
            && Until(u[1..], close) == |body| < |u[1..]| && u[1..][..|body|] == body
            && u[|body| + 2..] == rest
  {
    var u := [open] + (body + ([close] + rest));
    assert u[1..] == body + ([close] + rest);
    UntilFinds(body, close, rest);
  }
}
