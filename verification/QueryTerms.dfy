/**
  `strip_possessives` and `query_terms` of src/fulltext.rs, over any alphabet: which characters are
  alphanumeric and how each is lowercased are parameters, with the few facts about them the results need.
 */
module QueryTerms {
  import opened Lists
  import opened Text

  const REDISEARCH_SEPARATORS: string := ",./(){}[]:;~!@#$%^&*-=+|'`\"<>?\\"

  predicate IsSeparator(c: char) { IsWhitespace(c) || c in REDISEARCH_SEPARATORS }
  predicate IsApostrophe(c: char) { c == '\'' || c == '\U{2019}' }
  predicate IsS(c: char) { c == 's' || c == 'S' }

  // ----- Alphabets -----

  /** `char::is_alphanumeric`, and the lowercase of a character, which may be several characters. */
  datatype Alphabet = Alphabet(word: char -> bool, lower: char -> string)

  /** Lowercasing `c` keeps what the tokenizer looks at, and lowercasing again changes nothing. */
  predicate LawfulLower(al: Alphabet, c: char) {
    var u := al.lower(c);
    && u != ""
    && (al.word(c) ==> al.word(u[0])) && (al.word(u[|u| - 1]) ==> al.word(c))
    && (IsS(c) ==> u == "s") && (IsS(u[0]) ==> IsS(c)) && (IsApostrophe(c) ==> u == [c])
    && (forall i | 0 <= i < |u| :: IsApostrophe(u[i]) ==> u == [c])
    && (forall i | 0 <= i < |u| :: IsSeparator(u[i]) ==> IsSeparator(c))
    && (forall i | 0 <= i < |u| :: al.lower(u[i]) == [u[i]])
  }

  ghost predicate Lawful(al: Alphabet) {
    && al.word('s') && al.word('S')
    && (forall c | IsApostrophe(c) || IsSeparator(c) :: !al.word(c))
    && (forall c :: LawfulLower(al, c))
  }

  function AsciiLower(c: char): string {
    [if 'A' <= c <= 'Z' then (c as int + 32) as char else c]
  }

  /** Only the capitals change, each into the small letter that is as far from 'a' as it is from 'A'. */
  lemma AsciiLowers(c: char)
    ensures var u := AsciiLower(c);
            && |u| == 1 && (u == [c] <==> c < 'A' || 'Z' < c)
            && ('A' <= c <= 'Z' ==> 'a' <= u[0] <= 'z' && u[0] as int - 'a' as int == c as int - 'A' as int)
  {
  }

  const ASCII: Alphabet := Alphabet(IsAsciiAlphanumeric, AsciiLower)

  /** The ASCII alphabet is one. */
  lemma AsciiIsLawful()
    ensures Lawful(ASCII)
  {
    forall c | IsApostrophe(c) || IsSeparator(c) ensures !ASCII.word(c) {}
    forall c ensures LawfulLower(ASCII, c) {}
  }

  // ----- Possessives -----

  /** `t` starts with a possessive, `afterWord` telling whether an alphanumeric character precedes it. */
  predicate StartsPossessive(al: Alphabet, afterWord: bool, t: string) {
    && afterWord && |t| >= 2 && IsApostrophe(t[0]) && IsS(t[1])
    && (|t| == 2 || !al.word(t[2]))
  }

  function Strip(al: Alphabet, afterWord: bool, t: string): string
    decreases |t|
  {
    if t == "" then ""
    else if StartsPossessive(al, afterWord, t) then Strip(al, al.word(t[1]), t[2..])
    else [t[0]] + Strip(al, al.word(t[0]), t[1..])
  }

  /** A possessive at position `i`, as the source tests it. */
  predicate PossessiveAt(al: Alphabet, t: string, i: nat) {
    && 0 < i && i + 1 < |t| && (t[i] == '\'' || t[i] == '\U{2019}') && al.word(t[i - 1])
    && (t[i + 1] == 's' || t[i + 1] == 'S') && (i + 2 == |t| || !al.word(t[i + 2]))
  }

  /** What is left to strip from position `i` on. */
  ghost function StripFrom(al: Alphabet, text: string, i: nat): string
    requires i <= |text|
  {
    Strip(al, i > 0 && al.word(text[i - 1]), text[i..])
  }

  lemma StripStep(al: Alphabet, text: string, i: nat)
    requires i < |text|
    ensures PossessiveAt(al, text, i) ==> StripFrom(al, text, i) == StripFrom(al, text, i + 2)
    ensures !PossessiveAt(al, text, i) ==> StripFrom(al, text, i) == [text[i]] + StripFrom(al, text, i + 1)
  {
    var t := text[i..];
    assert StartsPossessive(al, i > 0 && al.word(text[i - 1]), t) == PossessiveAt(al, text, i);
    if PossessiveAt(al, text, i) {
      assert t[2..] == text[i + 2..];
    } else {
      assert t[1..] == text[i + 1..];
    }
  }

  method StripPossessives(al: Alphabet, text: string) returns (out: string)
    ensures out == Strip(al, false, text)
  {
    out := "";
    var i := 0;
    assert text[0..] == text;
    while i < |text|
      invariant i <= |text|
      invariant out + StripFrom(al, text, i) == Strip(al, false, text)
    {
      var c := text[i];
      var isPossessive := && IsApostrophe(c) && i > 0 && al.word(text[i - 1])
                          && i + 1 < |text| && IsS(text[i + 1])
                          && (i + 2 >= |text| || !al.word(text[i + 2]));
      assert isPossessive == PossessiveAt(al, text, i);
      StripStep(al, text, i);
      if isPossessive {
        i := i + 2;
      } else {
        out := out + [c];
        i := i + 1;
      }
    }
  }

  /** The two characters of a possessive. */
  predicate InPossessive(al: Alphabet, t: string, i: nat) {
    PossessiveAt(al, t, i) || (i > 0 && PossessiveAt(al, t, i - 1))
  }

  /** The characters from `i` on that belong to no possessive. */
  function Outside(al: Alphabet, t: string, i: nat): string
    requires i <= |t|
    decreases |t| - i
  {
    if i == |t| then "" else (if InPossessive(al, t, i) then "" else [t[i]]) + Outside(al, t, i + 1)
  }

  lemma {:induction false} StripFromKeeps(al: Alphabet, text: string, i: nat)
    requires i <= |text| && (i > 0 ==> !PossessiveAt(al, text, i - 1))
    ensures StripFrom(al, text, i) == Outside(al, text, i)
    decreases |text| - i
  {
    if i < |text| {
      StripStep(al, text, i);
      if PossessiveAt(al, text, i) {
        assert InPossessive(al, text, i) && InPossessive(al, text, i + 1) && !PossessiveAt(al, text, i + 1);
        StripFromKeeps(al, text, i + 2);
      } else {
        StripFromKeeps(al, text, i + 1);
      }
    }
  }

  /** Stripping keeps every character outside the possessives of the text, in order, and nothing else. */
  lemma StripKeepsTheRest(al: Alphabet, text: string)
    ensures Strip(al, false, text) == Outside(al, text, 0)
  {
    assert text[0..] == text;
    StripFromKeeps(al, text, 0);
  }

  /** No possessive anywhere in `t`. */
  ghost predicate Clean(al: Alphabet, afterWord: bool, t: string)
    decreases |t|
  {
    t == "" || (!StartsPossessive(al, afterWord, t) && Clean(al, al.word(t[0]), t[1..]))
  }

  lemma {:induction false} CleanIff(al: Alphabet, t: string, i: nat)
    requires i <= |t|
    ensures Clean(al, i > 0 && al.word(t[i - 1]), t[i..]) <==> forall j | i <= j < |t| :: !PossessiveAt(al, t, j)
    decreases |t| - i
  {
    if i < |t| {
      CleanIff(al, t, i + 1);
      assert t[i..][1..] == t[i + 1..];
      assert StartsPossessive(al, i > 0 && al.word(t[i - 1]), t[i..]) == PossessiveAt(al, t, i);
    }
  }

  lemma KeptHead(al: Alphabet, afterWord: bool, t: string)
    requires t != "" && !StartsPossessive(al, afterWord, t)
    ensures Strip(al, afterWord, t) == [t[0]] + Strip(al, al.word(t[0]), t[1..])
  {
  }

  /** What survives an apostrophe: keeping it means the text behind it still does not make it a possessive. */
  lemma KeptApostrophe(al: Alphabet, t: string)
    requires Lawful(al) && |t| >= 2 && IsApostrophe(t[0]) && !StartsPossessive(al, true, t)
    ensures !StartsPossessive(al, true, [t[0]] + Strip(al, al.word(t[0]), t[1..]))
  {
    var u := t[1..];
    assert !al.word(t[0]);
    KeptHead(al, false, u);
    if IsS(t[1]) {
      var v := t[2..];
      assert u[1..] == v && v[0] == t[2];
      KeptHead(al, al.word(t[1]), v);
    }
  }

  lemma {:induction false} StripLeavesNone(al: Alphabet, afterWord: bool, t: string)
    requires Lawful(al)
    ensures Clean(al, afterWord, Strip(al, afterWord, t))
    decreases |t|
  {
    if t != "" {
      if StartsPossessive(al, afterWord, t) {
        StripLeavesNone(al, al.word(t[1]), t[2..]);
        assert al.word(t[1]) && afterWord;
      } else {
        var rest := Strip(al, al.word(t[0]), t[1..]);
        StripLeavesNone(al, al.word(t[0]), t[1..]);
        assert ([t[0]] + rest)[1..] == rest;
        if afterWord && IsApostrophe(t[0]) && |t| >= 2 { KeptApostrophe(al, t); }
      }
    }
  }

  lemma {:induction false} StripKeepsClean(al: Alphabet, afterWord: bool, t: string)
    requires Clean(al, afterWord, t)
    ensures Strip(al, afterWord, t) == t
    decreases |t|
  {
    if t != "" {
      StripKeepsClean(al, al.word(t[0]), t[1..]);
      assert t == [t[0]] + t[1..];
    }
  }

  /** Stripping twice is stripping once, and leaves no possessive at any position. */
  lemma StripIsIdempotent(al: Alphabet, text: string)
    requires Lawful(al)
    ensures Strip(al, false, Strip(al, false, text)) == Strip(al, false, text)
    ensures forall j | 0 <= j < |Strip(al, false, text)| :: !PossessiveAt(al, Strip(al, false, text), j)
  {
    var t := Strip(al, false, text);
    StripLeavesNone(al, false, text);
    StripKeepsClean(al, false, t);
    assert t[0..] == t;
    CleanIff(al, t, 0);
  }

  // ----- Terms -----

  predicate Without(t: string, sep: char -> bool) { forall i | 0 <= i < |t| :: !sep(t[i]) }

  predicate NoSeparator(t: string) { Without(t, IsSeparator) }

  /** `str::split(sep)`. */
  function Pieces(t: string, sep: char -> bool): (parts: seq<string>)
    ensures |parts| >= 1 && parts[0] <= t
    ensures |parts[0]| < |t| ==> sep(t[|parts[0]|])
    ensures forall i | 0 <= i < |parts| :: Without(parts[i], sep)
  {
    if t == "" then [""] else
      var rest := Pieces(t[1..], sep);
      if sep(t[0]) then [""] + rest else [[t[0]] + rest[0]] + rest[1..]
  }

  /** The pieces one after the other. */
  function Glued(parts: seq<string>): string {
    if parts == [] then "" else parts[0] + Glued(parts[1..])
  }

  function Separators(t: string, sep: char -> bool): nat {
    if t == "" then 0 else (if sep(t[0]) then 1 else 0) + Separators(t[1..], sep)
  }

  function Filtered(t: string, sep: char -> bool): string {
    if t == "" then "" else (if sep(t[0]) then "" else [t[0]]) + Filtered(t[1..], sep)
  }

  /** Splitting cuts at every separator and loses nothing else. */
  lemma {:induction false} PiecesKeepAll(t: string, sep: char -> bool)
    ensures Glued(Pieces(t, sep)) == Filtered(t, sep) && |Pieces(t, sep)| == Separators(t, sep) + 1
  {
    if t == "" {
      GluedCons("", []);
      assert [""] + [] == [""];
    } else {
      PiecesKeepAll(t[1..], sep);
      var rest := Pieces(t[1..], sep);
      if sep(t[0]) {
        GluedCons("", rest);
      } else {
        PieceGrows(t[0], rest);
      }
    }
  }

  lemma Associates(a: string, b: string, c: string)
    ensures a + b + c == a + (b + c)
  {
  }

  /** One more character at the front of the first piece. */
  lemma PieceGrows(c: char, rest: seq<string>)
    requires rest != []
    ensures Glued([[c] + rest[0]] + rest[1..]) == [c] + Glued(rest)
  {
    var first, others := rest[0], rest[1..];
    calc {
      Glued([[c] + first] + others);
      { GluedCons([c] + first, others); }
      [c] + first + Glued(others);
      { Associates([c], first, Glued(others)); }
      [c] + (first + Glued(others));
      [c] + Glued(rest);
    }
  }

  lemma GluedCons(part: string, parts: seq<string>)
    ensures Glued([part] + parts) == part + Glued(parts)
  {
    assert ([part] + parts)[1..] == parts;
  }

  function SplitWords(t: string): seq<string> { Pieces(t, IsSeparator) }

  function Lower(al: Alphabet, t: string): string {
    if t == "" then "" else al.lower(t[0]) + Lower(al, t[1..])
  }

  predicate IsTerm(al: Alphabet, t: string) {
    (exists i | 0 <= i < |t| :: al.word(t[i])) && t !in STOPWORDS
  }

  /** `w` is one of the parts, lowercased. */
  ghost predicate IsLowered(al: Alphabet, parts: seq<string>, w: string) {
    exists i | 0 <= i < |parts| :: Lower(al, parts[i]) == w
  }

  /** Lowercase, then drop what holds no word character and the stopwords. */
  function Kept(al: Alphabet, parts: seq<string>): (r: seq<string>)
    ensures forall w :: w in r <==> IsTerm(al, w) && IsLowered(al, parts, w)
  {
    if parts == [] then [] else
      var t := Lower(al, parts[0]);
      assert forall w :: IsLowered(al, parts, w) <==> w == t || IsLowered(al, parts[1..], w) by {
        assert forall i | 0 < i < |parts| :: parts[i] == parts[1..][i - 1];
      }
      (if IsTerm(al, t) then [t] else []) + Kept(al, parts[1..])
  }

  function Terms(al: Alphabet, text: string): seq<string> {
    Dedup(Kept(al, SplitWords(Strip(al, false, text))))
  }

  /** Where `str::split` cuts: at white space and at the separators of RediSearch. */
  ghost function CutsAt(): char -> bool {
    c => IsWhitespace(c) || c in REDISEARCH_SEPARATORS
  }

  lemma {:induction false} SamePieces(t: string, f: char -> bool, g: char -> bool)
    requires forall c :: f(c) == g(c)
    ensures Pieces(t, f) == Pieces(t, g)
  {
    if t != "" { SamePieces(t[1..], f, g); }
  }

  /**
    Exactly which words are terms: the lowercased pieces of the text without its possessives that hold a
    word character and are no stopword.
   */
  lemma TermsIff(al: Alphabet, text: string, w: string)
    ensures w in Terms(al, text) <==>
            && (exists i | 0 <= i < |w| :: al.word(w[i])) && w !in STOPWORDS
            && IsLowered(al, Pieces(Outside(al, text, 0), CutsAt()), w)
  {
    StripKeepsTheRest(al, text);
    SamePieces(Strip(al, false, text), IsSeparator, CutsAt());
    assert w in Terms(al, text) <==> w in Kept(al, SplitWords(Strip(al, false, text)));
  }

  /** The qualifying pieces in order: term number `i` is the `i`-th different one. */
  lemma TermsAreFirsts(al: Alphabet, text: string)
    ensures var kept := Kept(al, SplitWords(Strip(al, false, text)));
            IsFirstDistinct(Terms(al, text), kept, |kept|)
  {
    var kept := Kept(al, SplitWords(Strip(al, false, text)));
    FirstDistinctIs(kept, |kept|);
    assert Take(Dedup(kept), |kept|) == Dedup(kept);
  }

  /** Keeping is piece by piece, in order. */
  lemma {:induction false} KeptInOrder(al: Alphabet, a: seq<string>, b: seq<string>)
    ensures Kept(al, a + b) == Kept(al, a) + Kept(al, b)
  {
    if a == [] {
      assert a + b == b;
    } else {
      assert (a + b)[1..] == a[1..] + b;
      KeptInOrder(al, a[1..], b);
    }
  }

  function Join(ts: seq<string>): string {
    if ts == [] then "" else if |ts| == 1 then ts[0] else ts[0] + (" " + Join(ts[1..]))
  }

  /** What a term looks like: a clean lowercase word without separators. */
  ghost predicate Settled(al: Alphabet, t: string) {
    NoSeparator(t) && Lower(al, t) == t && IsTerm(al, t) && Clean(al, false, t)
  }

  /** In the source's own terms. */
  lemma SettledIs(al: Alphabet, t: string)
    requires Settled(al, t)
    ensures forall i | 0 <= i < |t| :: !IsWhitespace(t[i]) && t[i] !in REDISEARCH_SEPARATORS
    ensures (exists i | 0 <= i < |t| :: al.word(t[i])) && t !in STOPWORDS
    ensures forall i | 0 <= i < |t| :: !PossessiveAt(al, t, i)
  {
    assert forall i | 0 <= i < |t| :: !IsSeparator(t[i]);
    assert t[0..] == t;
    CleanIff(al, t, 0);
  }

  // ----- Lowercasing -----

  lemma {:induction false} LowerConcat(al: Alphabet, a: string, b: string)
    ensures Lower(al, a + b) == Lower(al, a) + Lower(al, b)
  {
    if a == "" {
      assert a + b == b;
    } else {
      assert (a + b)[1..] == a[1..] + b;
      LowerConcat(al, a[1..], b);
    }
  }

  /** Characters that are their own lowercase stay as they are. */
  lemma {:induction false} LowerFixes(al: Alphabet, t: string)
    requires forall i | 0 <= i < |t| :: al.lower(t[i]) == [t[i]]
    ensures Lower(al, t) == t
  {
    if t != "" {
      LowerFixes(al, t[1..]);
      assert [t[0]] + t[1..] == t;
    }
  }

  lemma {:induction false} LowerIsIdempotent(al: Alphabet, t: string)
    requires Lawful(al)
    ensures Lower(al, Lower(al, t)) == Lower(al, t)
  {
    if t != "" {
      var u := al.lower(t[0]);
      assert LawfulLower(al, t[0]);
      LowerConcat(al, u, Lower(al, t[1..]));
      LowerFixes(al, u);
      LowerIsIdempotent(al, t[1..]);
    }
  }

  lemma {:induction false} LowerHasNoSeparator(al: Alphabet, t: string)
    requires Lawful(al) && NoSeparator(t)
    ensures NoSeparator(Lower(al, t))
  {
    if t != "" {
      assert LawfulLower(al, t[0]) && !IsSeparator(t[0]);
      LowerHasNoSeparator(al, t[1..]);
    }
  }

  /** The head of a lowercased text is the head of its first character's lowercase. */
  lemma LowerHead(al: Alphabet, t: string)
    requires Lawful(al) && t != ""
    ensures LawfulLower(al, t[0]) && al.lower(t[0]) != ""
    ensures Lower(al, t) != "" && Lower(al, t)[0] == al.lower(t[0])[0]
    ensures |al.lower(t[0])| == 1 ==> Lower(al, t)[1..] == Lower(al, t[1..])
  {
    assert LawfulLower(al, t[0]);
  }

  /** Before text without an apostrophe nothing changes. */
  lemma {:induction false} CleanBefore(al: Alphabet, afterWord: bool, u: string, v: string)
    requires u != "" && (forall i | 0 <= i < |u| :: !IsApostrophe(u[i])) && Clean(al, al.word(u[|u| - 1]), v)
    ensures Clean(al, afterWord, u + v)
    decreases |u|
  {
    var t := u + v;
    if |u| == 1 {
      assert t[1..] == v;
    } else {
      CleanBefore(al, al.word(u[0]), u[1..], v);
      assert t[1..] == u[1..] + v;
    }
  }

  /** A possessive of the lowercased text was one of the text. */
  lemma LowerPossessive(al: Alphabet, afterWord: bool, t: string)
    requires Lawful(al) && t != "" && IsApostrophe(t[0])
    requires StartsPossessive(al, afterWord, [t[0]] + Lower(al, t[1..]))
    ensures StartsPossessive(al, afterWord, t)
  {
    var u, w := t[1..], [t[0]] + Lower(al, t[1..]);
    assert w[1..] == Lower(al, u) && u != "";
    LowerHead(al, u);
    assert IsS(u[0]) && al.lower(u[0]) == "s";
    if |t| > 2 {
      LowerHead(al, u[1..]);
      assert w[2] == Lower(al, u[1..])[0];
    }
  }

  lemma {:induction false} LowerKeepsClean(al: Alphabet, before: bool, afterWord: bool, t: string)
    requires Lawful(al) && Clean(al, before, t) && (afterWord ==> before)
    ensures Clean(al, afterWord, Lower(al, t))
    decreases |t|
  {
    if t != "" {
      var u, v := al.lower(t[0]), Lower(al, t[1..]);
      assert LawfulLower(al, t[0]);
      if IsApostrophe(t[0]) {
        assert u == [t[0]] && (u + v)[1..] == v;
        LowerKeepsClean(al, al.word(t[0]), al.word(t[0]), t[1..]);
        if StartsPossessive(al, afterWord, u + v) { LowerPossessive(al, afterWord, t); }
      } else {
        LowerKeepsClean(al, al.word(t[0]), al.word(u[|u| - 1]), t[1..]);
        CleanBefore(al, afterWord, u, v);
      }
    }
  }

  // ----- The terms are settled -----

  /** Cutting a text where no word character follows neither makes nor breaks a possessive at its start. */
  lemma CutPossessive(al: Alphabet, afterWord: bool, head: string, t: string)
    requires al.word('s') && al.word('S') && head != "" && head <= t
    requires |head| < |t| ==> !al.word(t[|head|])
    ensures StartsPossessive(al, afterWord, t) == StartsPossessive(al, afterWord, head)
  {
    assert |head| < |t| ==> !IsS(t[|head|]);
  }

  /** The pieces of a clean text are clean, when no separator is a word character. */
  lemma {:induction false} PiecesAreClean(al: Alphabet, afterWord: bool, t: string, sep: char -> bool)
    requires al.word('s') && al.word('S') && Clean(al, afterWord, t) && forall c | sep(c) :: !al.word(c)
    ensures Clean(al, afterWord, Pieces(t, sep)[0])
    ensures forall i | 1 <= i < |Pieces(t, sep)| :: Clean(al, false, Pieces(t, sep)[i])
    decreases |t|
  {
    if t != "" {
      PiecesAreClean(al, al.word(t[0]), t[1..], sep);
      if !sep(t[0]) {
        var rest := Pieces(t[1..], sep);
        var head := [t[0]] + rest[0];
        assert head[1..] == rest[0];
        CutPossessive(al, afterWord, head, t);
      }
    }
  }

  lemma WordsAreClean(al: Alphabet, t: string)
    requires Lawful(al) && Clean(al, false, t)
    ensures forall i | 0 <= i < |SplitWords(t)| :: NoSeparator(SplitWords(t)[i]) && Clean(al, false, SplitWords(t)[i])
  {
    forall c | IsSeparator(c) ensures !al.word(c) {}
    PiecesAreClean(al, false, t, IsSeparator);
  }

  lemma LowerSettles(al: Alphabet, t: string)
    requires Lawful(al) && NoSeparator(t) && Clean(al, false, t) && IsTerm(al, Lower(al, t))
    ensures Settled(al, Lower(al, t))
  {
    LowerKeepsClean(al, false, false, t);
    LowerIsIdempotent(al, t);
    LowerHasNoSeparator(al, t);
  }

  /** Every term is settled and occurs once. */
  lemma TermsAreSettled(al: Alphabet, text: string)
    requires Lawful(al)
    ensures Distinct(Terms(al, text)) && forall i | 0 <= i < |Terms(al, text)| :: Settled(al, Terms(al, text)[i])
  {
    var t := Strip(al, false, text);
    var parts := SplitWords(t);
    StripLeavesNone(al, false, text);
    WordsAreClean(al, t);
    forall w | w in Kept(al, parts) ensures Settled(al, w) {
      var i :| 0 <= i < |parts| && Lower(al, parts[i]) == w;
      LowerSettles(al, parts[i]);
    }
    forall i | 0 <= i < |Terms(al, text)| ensures Settled(al, Terms(al, text)[i]) {
      assert Terms(al, text)[i] in Kept(al, parts);
    }
  }

  // ----- Re-tokenising the joined terms -----

  lemma {:induction false} CleanJoin(al: Alphabet, afterWord: bool, t: string, rest: string)
    requires Lawful(al) && Clean(al, afterWord, t) && Clean(al, false, rest)
    ensures Clean(al, afterWord, t + (" " + rest))
    decreases |t|
  {
    var u := t + (" " + rest);
    assert IsSeparator(' ') && !al.word(' ');
    if t == "" {
      assert u[1..] == rest;
    } else {
      CleanJoin(al, al.word(t[0]), t[1..], rest);
      assert u[1..] == t[1..] + (" " + rest);
      CutPossessive(al, afterWord, t, u);
    }
  }

  lemma {:induction false} PiecesAtBlank(t: string, rest: string, sep: char -> bool)
    requires Without(t, sep) && sep(' ')
    ensures Pieces(t + (" " + rest), sep) == [t] + Pieces(rest, sep)
  {
    var u := t + (" " + rest);
    if t == "" {
      assert u[1..] == rest;
    } else {
      PiecesAtBlank(t[1..], rest, sep);
      assert u[1..] == t[1..] + (" " + rest);
      assert [t[0]] + t[1..] == t;
    }
  }

  lemma {:induction false} OnePiece(t: string, sep: char -> bool)
    requires Without(t, sep)
    ensures Pieces(t, sep) == [t]
  {
    if t != "" {
      OnePiece(t[1..], sep);
      assert [t[0]] + t[1..] == t;
    }
  }

  lemma {:induction false} JoinedTerms(al: Alphabet, ts: seq<string>)
    requires Lawful(al) && ts != [] && forall i | 0 <= i < |ts| :: Settled(al, ts[i])
    ensures Clean(al, false, Join(ts)) && SplitWords(Join(ts)) == ts
  {
    if |ts| == 1 {
      OnePiece(ts[0], IsSeparator);
      assert [ts[0]] == ts;
    } else {
      var tail := Join(ts[1..]);
      JoinedTerms(al, ts[1..]);
      assert Clean(al, false, ts[0] + (" " + tail)) by { CleanJoin(al, false, ts[0], tail); }
      assert SplitWords(ts[0] + (" " + tail)) == [ts[0]] + SplitWords(tail) by {
        PiecesAtBlank(ts[0], tail, IsSeparator);
      }
      assert [ts[0]] + ts[1..] == ts;
    }
  }

  lemma {:induction false} KeptOfSettled(al: Alphabet, ts: seq<string>)
    requires forall i | 0 <= i < |ts| :: Settled(al, ts[i])
    ensures Kept(al, ts) == ts
  {
    if ts != [] {
      KeptOfSettled(al, ts[1..]);
      assert [ts[0]] + ts[1..] == ts;
    }
  }

  /** Query terms are a fixed point: tokenising the joined terms gives the same list. */
  lemma TermsAreAFixedPoint(al: Alphabet, text: string)
    requires Lawful(al)
    ensures Terms(al, Join(Terms(al, text))) == Terms(al, text)
  {
    var ts := Terms(al, text);
    TermsAreSettled(al, text);
    if ts != [] {
      JoinedTerms(al, ts);
      StripKeepsClean(al, false, Join(ts));
      KeptOfSettled(al, ts);
      DedupOfDistinct(ts);
    } else {
      assert Strip(al, false, "") == "" && SplitWords("") == [""];
      assert Lower(al, "") == "" && !IsTerm(al, "");
      assert Kept(al, [""]) == [] by { assert [""][1..] == []; }
    }
  }
}
