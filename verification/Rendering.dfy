/**
 When the precompiled renderer agrees with the naive one, and what the static signature
 says about the text that reaches fmt.Sprintf.
 */
module Rendering {
  import opened Wrappers
  import opened Scanners
  import opened Messages

  // ------------------------------------------------ precompiled against naive

  /** A verb of the template lies outside every placeholder, so substitution keeps it. */
  lemma {:induction false} SubstitutionKeepsVerb(s: string, i: nat, params: seq<Param>, k: nat)
    requires i <= k < |s| - 1 && s[k] == '%' && IsVerb(s[k + 1])
    ensures HasVerb(Substitute(s, i, params))
    decreases |s| - i
  {
    match MatchAt(s, i)
    case Some(end) =>
      MatchAtExact(s, i, end);
      assert end <= k;
      SubstitutionKeepsVerb(s, end, params, k);
      VerbSurvivesPrefix(Replacement(s, Span(i, end), params), Substitute(s, end, params));
    case None =>
      if i == k {
        var rest := Substitute(s, i + 2, params);
        assert Substitute(s, i + 1, params) == [s[i + 1]] + rest;
        var text := Substitute(s, i, params);
        assert text == ['%'] + ([s[i + 1]] + rest);
        assert text[0] == '%' && text[1] == s[i + 1];
      } else {
        SubstitutionKeepsVerb(s, i + 1, params, k);
        VerbSurvivesPrefix([s[i]], Substitute(s, i + 1, params));
      }
  }

  lemma VerbSurvivesPrefix(prefix: string, s: string)
    requires HasVerb(s)
    ensures HasVerb(prefix + s)
  {
    var i :| 0 <= i < |s| - 1 && s[i] == '%' && IsVerb(s[i + 1]);
    var text := prefix + s;
    assert text[|prefix| + i] == '%' && text[|prefix| + i + 1] == s[i + 1];
  }

  lemma FormattedStaysFormatted(s: string, params: seq<Param>)
    requires HasVerb(s)
    ensures HasVerb(Substitute(s, 0, params))
  {
    var k :| 0 <= k < |s| - 1 && s[k] == '%' && IsVerb(s[k + 1]);
    SubstitutionKeepsVerb(s, 0, params, k);
  }

  /** The arguments bring no verb into a template that has none. */
  predicate NoVerbAppears(s: string, params: seq<Param>) {
    params == [] || HasVerb(s) || !HasVerb(Substitute(s, 0, params))
  }

  /** The two renderers agree, for every fmt.Sprintf, exactly when substitution brings in no verb. */
  lemma RenderedIsInjected(s: string, params: seq<Param>)
    ensures (forall sprintf: Formatter :: Rendered(s, params, sprintf) == InjectParams(s, params, sprintf))
            <==> NoVerbAppears(s, params)
  {
    if params != [] && HasVerb(s) {
      FormattedStaysFormatted(s, params);
    }
    if !NoVerbAppears(s, params) {
      var marking: Formatter := (text: string, ps: seq<Param>) => text + "!";
      assert Rendered(s, params, marking) != InjectParams(s, params, marking);
    }
  }

  // ------------------------------------------------ the grammar of a format

  datatype Token = Text(c: char) | Escape | Verb(c: char) | LonePercent

  function TokenText(token: Token): string {
    match token
    case Text(c) => [c]
    case Escape => "%%"
    case Verb(c) => ['%', c]
    case LonePercent => "%"
  }

  function Flatten(tokens: seq<Token>): string {
    if tokens == [] then "" else TokenText(tokens[0]) + Flatten(tokens[1..])
  }

  /** Text without percent signs, %%, %s and %d, and a lone percent sign only at the very end. */
  predicate Grammatical(tokens: seq<Token>) {
    forall k :: 0 <= k < |tokens| ==> TokenOk(tokens[k], k == |tokens| - 1)
  }

  predicate TokenOk(token: Token, last: bool) {
    match token
    case Text(c) => c != '%'
    case Escape => true
    case Verb(c) => IsVerb(c)
    case LonePercent => last
  }

  ghost predicate Decomposes(s: string, tokens: seq<Token>) {
    Grammatical(tokens) && Flatten(tokens) == s
  }

  /** fmt.Sprintf's left-to-right reading of a format, for the formats this model covers. */
  function Tokenize(s: string): Option<seq<Token>> {
    if s == "" then Some([])
    else if s[0] != '%' then Push(Text(s[0]), Tokenize(s[1..]))
    else if |s| == 1 then Some([LonePercent])
    else if s[1] == '%' then Push(Escape, Tokenize(s[2..]))
    else if IsVerb(s[1]) then Push(Verb(s[1]), Tokenize(s[2..]))
    else None
  }

  function Push(token: Token, rest: Option<seq<Token>>): Option<seq<Token>> {
    if rest.None? then None else Some([token] + rest.value)
  }

  /** Left-to-right reading finds the one decomposition whenever there is one. */
  lemma TokenizeExact(s: string, tokens: seq<Token>)
    ensures Tokenize(s) == Some(tokens) <==> Decomposes(s, tokens)
  {
    if Tokenize(s) == Some(tokens) {
      TokenizeSound(s);
    }
    if Decomposes(s, tokens) {
      TokenizeComplete(tokens);
    }
  }

  lemma {:induction false} TokenizeSound(s: string)
    requires Tokenize(s).Some?
    ensures Decomposes(s, Tokenize(s).value)
  {
    if s != "" && s != "%" {
      var width := if s[0] != '%' then 1 else 2;
      TokenizeSound(s[width..]);
      var tokens := Tokenize(s).value;
      assert tokens[1..] == Tokenize(s[width..]).value && TokenText(tokens[0]) == s[..width];
      assert s == s[..width] + s[width..];
      GrammaticalTail(tokens);
    }
  }

  lemma {:induction false} TokenizeComplete(tokens: seq<Token>)
    requires Grammatical(tokens)
    ensures Tokenize(Flatten(tokens)) == Some(tokens)
  {
    if tokens != [] {
      GrammaticalTail(tokens);
      TokenizeComplete(tokens[1..]);
      TokenizeHead(tokens[0], Flatten(tokens[1..]));
      assert [tokens[0]] + tokens[1..] == tokens;
    }
  }

  /** A token in front of a format is read first. */
  lemma TokenizeHead(token: Token, rest: string)
    requires TokenOk(token, rest == "")
    ensures Tokenize(TokenText(token) + rest) == Push(token, Tokenize(rest))
  {
    var head := TokenText(token);
    var s := head + rest;
    assert s[|head|..] == rest;
    match token
    case Text(c) => assert s[0] == c;
    case Escape => assert s[0] == '%' && s[1] == '%';
    case Verb(c) => assert s[0] == '%' && s[1] == c;
    case LonePercent => assert s == "%" && [token] + [] == [token];
  }

  lemma GrammaticalTail(tokens: seq<Token>)
    requires tokens != []
    ensures Grammatical(tokens) <==> TokenOk(tokens[0], |tokens| == 1) && Grammatical(tokens[1..])
  {
    forall k | 0 <= k < |tokens[1..]| ensures tokens[1..][k] == tokens[k + 1] { }
    if TokenOk(tokens[0], |tokens| == 1) && Grammatical(tokens[1..]) {
      forall k | 0 < k < |tokens| ensures TokenOk(tokens[k], k == |tokens| - 1) {
        assert tokens[k] == tokens[1..][k - 1];
      }
    }
  }

  function VerbsOf(tokens: seq<Token>): string {
    if tokens == [] then ""
    else (if tokens[0].Verb? then [tokens[0].c] else "") + VerbsOf(tokens[1..])
  }

  /** The verbs that fmt.Sprintf reads in a format. */
  function FormatVerbs(s: string): Option<string> {
    match Tokenize(s)
    case Some(tokens) => Some(VerbsOf(tokens))
    case None => None
  }

  // ------------------------------------------------ the static percent scan

  /** In a formatted message the scan accepts exactly the grammatical formats, and lists their verbs. */
  lemma {:induction false} ScanIsTokenize(s: string, i: nat)
    requires i <= |s|
    ensures ScanVerbs(s, i, true).Ok? <==> FormatVerbs(s[i..]).Some?
    ensures ScanVerbs(s, i, true).Ok? ==> ScanVerbs(s, i, true).value == FormatVerbs(s[i..]).value
    decreases |s| - i
  {
    var rest := s[i..];
    if i < |s| {
      if s[i] != '%' || i + 1 == |s| {
        ScanIsTokenize(s, i + 1);
        assert rest[1..] == s[i + 1..];
      } else if s[i + 1] == '%' || IsVerb(s[i + 1]) {
        ScanIsTokenize(s, i + 2);
        assert rest[2..] == s[i + 2..];
      }
      if Tokenize(rest).Some? && Tokenize(rest).value != [] {
        assert Tokenize(rest).value == [Tokenize(rest).value[0]] + Tokenize(rest).value[1..];
      }
    }
  }

  /** The character at `i` follows an odd run of percent signs, the last of which escapes it. */
  predicate Escaped(s: string, i: nat)
    requires i <= |s|
  {
    i > 0 && s[i - 1] == '%' && !Escaped(s, i - 1)
  }

  /** The length of the run of percent signs that ends just before `i`. */
  function PercentsBefore(s: string, i: nat): nat
    requires i <= |s|
  {
    if i == 0 || s[i - 1] != '%' then 0 else 1 + PercentsBefore(s, i - 1)
  }

  lemma {:induction false} EscapedIffOdd(s: string, i: nat)
    requires i <= |s|
    ensures Escaped(s, i) <==> PercentsBefore(s, i) % 2 == 1
  {
    if i > 0 {
      EscapedIffOdd(s, i - 1);
    }
  }

  /** An unescaped percent sign that starts a Java verb. */
  predicate BadPercent(s: string, i: nat) {
    i < |s| && !Escaped(s, i) && JavaVerbAt(s, i)
  }

  ghost predicate BadPercentFrom(s: string, i: nat) {
    exists j :: i <= j < |s| && BadPercent(s, j)
  }

  lemma EscapeIsNoVerb(s: string, i: nat)
    requires i + 1 < |s| && s[i + 1] == '%'
    ensures !JavaVerbAt(s, i)
  {
    assert DigitsEnd(s, i + 1) == i + 1 && FlagsEnd(s, i + 1) == i + 1;
  }

  /** Where the scan goes on after `i`, if it does not stop there. */
  function NextScanned(s: string, i: nat): nat
    requires i < |s|
  {
    if s[i] == '%' && i + 1 < |s| && s[i + 1] == '%' then i + 2 else i + 1
  }

  /** The scan stops at every unescaped percent sign. */
  ghost predicate Stops(s: string, i: nat) {
    i <= |s| && (i < |s| && s[i] == '%' ==> !Escaped(s, i))
  }

  /** What the scan jumps over is no unescaped Java verb. */
  lemma NothingSkipped(s: string, i: nat)
    requires i < |s| && Stops(s, i)
    ensures Stops(s, NextScanned(s, i))
    ensures NextScanned(s, i) == i + 2 ==> !BadPercent(s, i) && !BadPercent(s, i + 1)
  {
    if NextScanned(s, i) == i + 2 {
      EscapeIsNoVerb(s, i);
    }
  }

  lemma NextUnescaped(s: string, i: nat, j: nat)
    requires i < j < |s| && Stops(s, i) && !Escaped(s, j)
    ensures j >= NextScanned(s, i)
  {
  }

  lemma BadPercentSplit(s: string, i: nat)
    requires i < |s| && Stops(s, i)
    ensures BadPercentFrom(s, i) <==> BadPercent(s, i) || BadPercentFrom(s, NextScanned(s, i))
  {
    if BadPercent(s, i) {
    } else if j :| i <= j < |s| && BadPercent(s, j) {
      NextUnescaped(s, i, j);
    }
  }

  lemma ScanStep(s: string, i: nat)
    requires !HasVerb(s) && i < |s| && Stops(s, i)
    ensures ScanVerbs(s, i, false) == if BadPercent(s, i) then Err(UnsupportedVerb) else ScanVerbs(s, NextScanned(s, i), false)
  {
    NothingSkipped(s, i);
  }

  /** In a message without %s and %d the scan rejects exactly the unescaped Java verbs. */
  lemma {:induction false} ScanUnformatted(s: string, i: nat)
    requires !HasVerb(s) && Stops(s, i)
    ensures ScanVerbs(s, i, false) == if BadPercentFrom(s, i) then Err(UnsupportedVerb) else Ok("")
    decreases |s| - i
  {
    if i < |s| {
      NothingSkipped(s, i);
      BadPercentSplit(s, i);
      ScanStep(s, i);
      ScanUnformatted(s, NextScanned(s, i));
    }
  }

  /** The number in a placeholder. */
  ghost function NumberIn(s: string, span: Span): nat
    requires IsPlaceholder(s, span)
  {
    DecimalValue(s[span.start + 1..span.end - 1])
  }

  /** Every placeholder's number fits a 64-bit int. */
  ghost predicate NumbersFit(s: string) {
    forall span :: IsPlaceholder(s, span) ==> NumberIn(s, span) <= 9223372036854775807
  }

  /** The message has a placeholder with this number. */
  ghost predicate HasNumber(s: string, x: nat) {
    exists span :: IsPlaceholder(s, span) && NumberIn(s, span) == x
  }

  /** The verbs of a message, if it matches %[sd]: those of its decomposition. */
  ghost predicate HasVerbs(s: string, verbs: string) {
    if HasVerb(s) then exists tokens :: Decomposes(s, tokens) && VerbsOf(tokens) == verbs else verbs == ""
  }

  /** The collected indexes are the numbers in the text. */
  lemma IndexesInText(s: string)
    ensures Indexes(s, Spans(s, 0)).Some? <==> NumbersFit(s)
    ensures Indexes(s, Spans(s, 0)).Some? ==> forall x: nat :: x in Indexes(s, Spans(s, 0)).value <==> HasNumber(s, x)
  {
    var spans := Spans(s, 0);
    IndexesExact(s, spans);
    forall span ensures IsPlaceholder(s, span) <==> span in spans {
      SpansExact(s, 0, span);
    }
    assert forall span :: IsPlaceholder(s, span) ==>
        IndexOf(s, span) == if NumberIn(s, span) <= MAX_INT then Some(NumberIn(s, span)) else None;
  }

  /**
   Acceptance.  A message compiles exactly when its numbers fit an int and, if it matches
   %[sd], it decomposes into text, %%, %s, %d and at most a lone final percent sign, and
   otherwise no unescaped percent sign starts a Java verb.
   */
  lemma AcceptedIff(s: string, r: Result<Compiled, MessageError>)
    requires CompilesTo(s, r)
    ensures r.Ok? <==> NumbersFit(s) && if HasVerb(s) then exists tokens :: Decomposes(s, tokens) else !BadPercentFrom(s, 0)
    ensures r.Ok? && HasVerb(s) ==> forall tokens :: Decomposes(s, tokens) ==> r.value.signature.verbs == VerbsOf(tokens)
    ensures r.Ok? && r.value.signature.verbs != "" ==> r.value.formatted
  {
    assert s[0..] == s;
    IndexesInText(s);
    if HasVerb(s) {
      ScanIsTokenize(s, 0);
      forall tokens ensures Tokenize(s) == Some(tokens) <==> Decomposes(s, tokens) {
        TokenizeExact(s, tokens);
      }
      if Tokenize(s).Some? {
        assert Decomposes(s, Tokenize(s).value);
      }
    } else {
      ScanUnformatted(s, 0);
    }
  }

  /** The signature says what the text says. */
  lemma SignatureInText(m: Compiled)
    requires CompilesTo(m.template, Ok(m))
    ensures forall x: nat :: x in m.signature.indexed <==> HasNumber(m.template, x)
    ensures forall verbs :: HasVerbs(m.template, verbs) <==> verbs == m.signature.verbs
  {
    IndexesInText(m.template);
    AcceptedIff(m.template, Ok(m));
    if !HasVerb(m.template) {
      ScanUnformatted(m.template, 0);
    }
  }

  /** Two texts with one contract: the same numbers in their placeholders, and the same verbs in order. */
  ghost predicate SameContract(s: string, s': string) {
    && (forall x: nat :: HasNumber(s, x) <==> HasNumber(s', x))
    && exists verbs :: HasVerbs(s, verbs) && HasVerbs(s', verbs)
  }

  /** Comparing signatures decides exactly that. */
  lemma SameSignatureIff(m: Compiled, m': Compiled)
    requires CompilesTo(m.template, Ok(m)) && CompilesTo(m'.template, Ok(m'))
    ensures SameMessageSignature(m.signature, m'.signature) <==> SameContract(m.template, m'.template)
  {
    SignatureInText(m);
    SignatureInText(m');
    if SameMessageSignature(m.signature, m'.signature) {
      assert HasVerbs(m.template, m.signature.verbs) && HasVerbs(m'.template, m.signature.verbs);
    }
    if SameContract(m.template, m'.template) {
      forall x ensures x in m.signature.indexed <==> x in m'.signature.indexed {
        if x >= 0 {
          assert HasNumber(m.template, x) <==> HasNumber(m'.template, x);
        }
      }
      SortedListingIsUnique(m.signature.indexed, m'.signature.indexed);
    }
  }

  /** Without placeholders only the percent scan decides. */
  lemma ScanDecides(s: string, r: Result<Compiled, MessageError>)
    requires CompilesTo(s, r) && Spans(s, 0) == []
    ensures r.Ok? <==> ScanVerbs(s, 0, HasVerb(s)).Ok?
    ensures r.Ok? ==> r.value.signature.verbs == ScanVerbs(s, 0, HasVerb(s)).value
  {
  }

  /** The letters that become verbs. */
  lemma VerbLetters(c: char, s: string, r: Result<Compiled, MessageError>)
    requires s == ['%', c, 'x'] && CompilesTo(s, r) && (c == 's' || c == 'd')
    ensures r.Ok? && r.value.signature.verbs == [c] && r.value.formatted
  {
    NoPlaceholder(s);
    ScanVerbThen(c);
    ScanDecides(s, r);
  }

  /** The characters that are refused after a percent sign, and that all others are no verbs. */
  lemma RefusedLetters(c: char, s: string, r: Result<Compiled, MessageError>)
    requires s == ['%', c, 'x'] && CompilesTo(s, r) && c != 's' && c != 'd'
    ensures r.Err? <==> c in "-#+0,(<123456789bBhHScCoxXeEfgGaAtTn"
    ensures r.Ok? ==> r.value.signature.verbs == "" && !r.value.formatted
  {
    NoPlaceholder(s);
    ScanDecides(s, r);
    ScanOtherThen(c);
  }

  lemma ScanVerbThen(c: char)
    requires IsVerb(c)
    ensures HasVerb(['%', c, 'x']) && ScanVerbs(['%', c, 'x'], 0, true) == Ok([c])
  {
    var s := ['%', c, 'x'];
    assert s[0] == '%' && s[1] == c;
    assert ScanVerbs(s, 3, true) == Ok("") && ScanVerbs(s, 2, true) == Ok("");
    FoundTwice([c], "", Ok(""));
  }

  lemma ScanOtherThen(c: char)
    requires !IsVerb(c)
    ensures !HasVerb(['%', c, 'x'])
    ensures ScanVerbs(['%', c, 'x'], 0, false) == if c in "-#+0,(<123456789bBhHScCoxXeEfgGaAtTn" then Err(UnsupportedVerb) else Ok("")
  {
    var s := ['%', c, 'x'];
    assert s[0] == '%' && s[1] == c && s[2] == 'x';
    assert ScanVerbs(s, 3, false) == Ok("") && ScanVerbs(s, 2, false) == Ok("");
    if c != '%' {
      assert ScanVerbs(s, 1, false) == Ok("");
      PercentThenVerb(c);
    }
  }

  lemma NoPlaceholder(s: string)
    requires |s| == 3 && s[0] == '%'
    ensures Spans(s, 0) == []
  {
    if Spans(s, 0) != [] {
      SpansExact(s, 0, Spans(s, 0)[0]);
    }
  }

  lemma PercentThenVerb(c: char)
    requires c != '%' && !IsVerb(c)
    ensures JavaVerbAt(['%', c, 'x'], 0) <==> c in "-#+0,(<123456789bBhHScCoxXeEfgGaAtTn"
  {
    var s := ['%', c, 'x'];
    assert DigitsEnd(s, 2) == 2 && FlagsEnd(s, 2) == 2;
    assert IndexEnd(s, 0) == 1;
    if IsFlag(c) {
      assert FlagsEnd(s, 1) == 2;
    } else {
      assert FlagsEnd(s, 1) == 1;
    }
  }

  /**
   The verbs must not be empty: %%s matches %[sd] but escapes the percent sign, so it has
   the signature of a plain message and yet is handed to fmt.Sprintf.
   */
  lemma FormattedWithoutVerbs() returns (escaped: Compiled, plain: Compiled)
    ensures escaped.template == "%%s" && CompilesTo("%%s", Ok(escaped))
    ensures plain.template == "x" && CompilesTo("x", Ok(plain))
    ensures SameMessageSignature(escaped.signature, plain.signature)
    ensures escaped.formatted && !plain.formatted
  {
    var s := "%%s";
    assert s[1] == '%' && IsVerb(s[2]);
    assert ScanVerbs(s, 3, true) == Ok("");
    assert ScanVerbs(s, 2, true) == Ok("");
    assert Spans(s, 3) == [];
    assert Spans(s, 2) == [];
    assert Spans(s, 1) == [];
    assert Spans("x", 1) == [];
    assert ScanVerbs("x", 1, false) == Ok("");
    escaped := Compiled(s, [], Signature([], ""), true);
    plain := Compiled("x", [], Signature([], ""), false);
  }

  // ------------------------------------------------ the signature at run time

  /** Text that fmt.Sprintf reads as text: every percent sign is doubled. */
  predicate ReadsAsText(text: string) {
    if text == "" then true
    else if text[0] != '%' then ReadsAsText(text[1..])
    else |text| > 1 && text[1] == '%' && ReadsAsText(text[2..])
  }

  predicate PlainParams(params: seq<Param>) {
    forall k :: 0 <= k < |params| ==> ReadsAsText(params[k].printed)
  }

  /** A token in front of a format adds its verb, if it is one. */
  lemma TokenPrefix(token: Token, s: string)
    requires TokenOk(token, false)
    ensures FormatVerbs(TokenText(token) + s).Some? <==> FormatVerbs(s).Some?
    ensures !token.Verb? ==> FormatVerbs(TokenText(token) + s) == FormatVerbs(s)
    ensures token.Verb? && FormatVerbs(s).Some? ==> FormatVerbs(TokenText(token) + s).value == [token.c] + FormatVerbs(s).value
  {
    TokenizeHead(token, s);
    if Tokenize(s).Some? {
      assert ([token] + Tokenize(s).value)[1..] == Tokenize(s).value;
      assert "" + VerbsOf(Tokenize(s).value) == VerbsOf(Tokenize(s).value);
    }
  }

  /** The same token in front of two formats with the same verbs. */
  lemma SameTokenPrefix(token: Token, s: string, s': string)
    requires TokenOk(token, false) && FormatVerbs(s).Some? && FormatVerbs(s) == FormatVerbs(s')
    ensures FormatVerbs(TokenText(token) + s) == FormatVerbs(TokenText(token) + s')
  {
    TokenPrefix(token, s);
    TokenPrefix(token, s');
  }

  lemma {:induction false} NoPercentReadsAsText(text: string)
    requires '%' !in text
    ensures ReadsAsText(text)
  {
    if text != "" {
      assert text[0] in text;
      NoPercentReadsAsText(text[1..]);
    }
  }

  /** Text in front of a format adds no verb. */
  lemma {:induction false} PlainPrefix(prefix: string, s: string)
    requires ReadsAsText(prefix)
    ensures FormatVerbs(prefix + s) == FormatVerbs(s)
  {
    if prefix == "" {
      assert prefix + s == s;
    } else {
      var token, width := if prefix[0] == '%' then Escape else Text(prefix[0]), if prefix[0] == '%' then 2 else 1;
      PlainPrefix(prefix[width..], s);
      assert prefix == TokenText(token) + prefix[width..];
      assert prefix + s == TokenText(token) + (prefix[width..] + s);
      TokenPrefix(token, prefix[width..] + s);
    }
  }

  /** Substituting plain arguments leaves a grammatical format with the same verbs in the same order. */
  lemma {:induction false} SubstitutionKeepsVerbs(s: string, i: nat, params: seq<Param>)
    requires i <= |s| && FormatVerbs(s[i..]).Some? && PlainParams(params)
    ensures FormatVerbs(Substitute(s, i, params)) == FormatVerbs(s[i..])
    decreases |s| - i
  {
    if i < |s| {
      match MatchAt(s, i)
      case Some(end) =>
        MatchAtExact(s, i, end);
        var span := Span(i, end);
        assert '%' !in s[i..end] by {
          assert forall k :: i <= k < end ==> s[k] != '%';
        }
        assert s[i..] == s[i..end] + s[end..];
        NoPercentReadsAsText(s[i..end]);
        PlainPrefix(s[i..end], s[end..]);
        SubstitutionKeepsVerbs(s, end, params);
        PlainPrefix(Replacement(s, span, params), Substitute(s, end, params));
      case None =>
        SubstitutionKeepsUnit(s, i, params);
    }
  }

  /** The token a grammatical format starts with, other than a lone percent sign. */
  lemma FirstToken(s: string, i: nat) returns (token: Token, next: nat)
    requires i < |s| && FormatVerbs(s[i..]).Some? && s[i..] != "%"
    ensures TokenOk(token, false) && i < next <= |s| && s[i..] == TokenText(token) + s[next..]
    ensures FormatVerbs(s[next..]).Some?
    ensures if s[i] == '%' then next == i + 2 && s[i + 1] != '{' else next == i + 1
  {
    var rest := s[i..];
    assert rest[0] == s[i];
    if s[i] != '%' {
      token, next := Text(s[i]), i + 1;
    } else {
      assert |rest| > 1 && rest[1] == s[i + 1];
      token, next := if s[i + 1] == '%' then Escape else Verb(s[i + 1]), i + 2;
    }
    assert rest == TokenText(token) + s[next..];
    TokenPrefix(token, s[next..]);
  }

  /** Outside placeholders, substitution copies a token. */
  lemma SubstituteToken(s: string, i: nat, params: seq<Param>, token: Token, next: nat)
    requires i < next <= |s| && MatchAt(s, i).None? && s[i..] == TokenText(token) + s[next..]
    requires if s[i] == '%' then next == i + 2 && s[i + 1] != '{' else next == i + 1
    ensures Substitute(s, i, params) == TokenText(token) + Substitute(s, next, params)
  {
    var text, later := TokenText(token), Substitute(s, next, params);
    assert |text| == next - i;
    assert text[0] == s[i..][0] == s[i];
    if next == i + 2 {
      assert text[1] == s[i..][1] == s[i + 1];
      assert MatchAt(s, i + 1).None?;
      assert Substitute(s, i + 1, params) == [text[1]] + later;
      assert [text[0]] + ([text[1]] + later) == text + later;
    }
  }

  /** The case of a token outside a placeholder. */
  lemma {:induction false} SubstitutionKeepsUnit(s: string, i: nat, params: seq<Param>)
    requires i < |s| && FormatVerbs(s[i..]).Some? && PlainParams(params) && MatchAt(s, i).None?
    ensures FormatVerbs(Substitute(s, i, params)) == FormatVerbs(s[i..])
    decreases |s| - i, 0
  {
    if s[i..] == "%" {
      assert |s| == i + 1 && s[i] == s[i..][0];
      assert Substitute(s, i + 1, params) == "";
      assert ['%'] + "" == "%";
    } else {
      var token, next := FirstToken(s, i);
      SubstituteToken(s, i, params, token, next);
      SubstitutionKeepsVerbs(s, next, params);
      SameTokenPrefix(token, s[next..], Substitute(s, next, params));
    }
  }

  // ------------------------------------------------ what fmt.Sprintf does with it

  datatype Piece =
    | Literal(text: string)
    | Converted(verb: char, param: Param)
    | Missing(verb: char)
    | NoVerb

  /** fmt.Sprintf from the argument `next` on. */
  function Pieces(tokens: seq<Token>, params: seq<Param>, next: nat): seq<Piece> {
    if tokens == [] then []
    else match tokens[0]
         case Text(c) => [Literal([c])] + Pieces(tokens[1..], params, next)
         case Escape => [Literal("%")] + Pieces(tokens[1..], params, next)
         case LonePercent => [NoVerb] + Pieces(tokens[1..], params, next)
         case Verb(c) => [Argument(c, params, next)] + Pieces(tokens[1..], params, next + 1)
  }

  function Argument(verb: char, params: seq<Param>, k: nat): Piece {
    if k < |params| then Converted(verb, params[k]) else Missing(verb)
  }

  predicate IsArgument(piece: Piece) {
    piece.Converted? || piece.Missing?
  }

  function Arguments(pieces: seq<Piece>): seq<Piece> {
    if pieces == [] then []
    else (if IsArgument(pieces[0]) then [pieces[0]] else []) + Arguments(pieces[1..])
  }

  /** The k-th verb with the k-th argument. */
  function Taken(verbs: string, params: seq<Param>, next: nat): seq<Piece> {
    seq(|verbs|, k requires 0 <= k < |verbs| => Argument(verbs[k], params, next + k))
  }

  lemma TakenFirst(c: char, verbs: string, params: seq<Param>, next: nat)
    ensures Taken([c] + verbs, params, next) == [Argument(c, params, next)] + Taken(verbs, params, next + 1)
  {
  }

  /** The k-th verb of a format takes the k-th argument. */
  lemma {:induction false} VerbsTakeArguments(tokens: seq<Token>, params: seq<Param>, next: nat)
    ensures Arguments(Pieces(tokens, params, next)) == Taken(VerbsOf(tokens), params, next)
  {
    if tokens != [] {
      var rest := tokens[1..];
      if tokens[0].Verb? {
        VerbsTakeArguments(rest, params, next + 1);
        TakenFirst(tokens[0].c, VerbsOf(rest), params, next);
        ArgumentsFirst(Argument(tokens[0].c, params, next), Pieces(rest, params, next + 1));
      } else {
        VerbsTakeArguments(rest, params, next);
        assert VerbsOf(tokens) == VerbsOf(rest);
        ArgumentsFirst(Pieces(tokens, params, next)[0], Pieces(rest, params, next));
      }
    }
  }

  lemma ArgumentsFirst(piece: Piece, rest: seq<Piece>)
    ensures Arguments([piece] + rest) == (if IsArgument(piece) then [piece] else []) + Arguments(rest)
  {
    assert ([piece] + rest)[1..] == rest;
  }

  /**
   Signature soundness.  Two accepted, formatted messages with equal signatures, rendered
   with plain arguments, hand fmt.Sprintf two grammatical formats whose verbs are exactly
   the signature's, and so consume the arguments alike.
   */
  lemma SignatureSoundness(m: Compiled, m': Compiled, params: seq<Param>)
    requires CompilesTo(m.template, Ok(m)) && CompilesTo(m'.template, Ok(m'))
    requires SameMessageSignature(m.signature, m'.signature) && m.signature.verbs != ""
    requires PlainParams(params)
    ensures m.formatted && m'.formatted
    ensures FormatVerbs(Substitute(m.template, 0, params)) == Some(m.signature.verbs)
    ensures FormatVerbs(Substitute(m'.template, 0, params)) == Some(m.signature.verbs)
    ensures Arguments(Pieces(Tokenize(Substitute(m.template, 0, params)).value, params, 0)) ==
            Arguments(Pieces(Tokenize(Substitute(m'.template, 0, params)).value, params, 0))
  {
    VerbsAtRunTime(m, params);
    VerbsAtRunTime(m', params);
    VerbsTakeArguments(Tokenize(Substitute(m.template, 0, params)).value, params, 0);
    VerbsTakeArguments(Tokenize(Substitute(m'.template, 0, params)).value, params, 0);
  }

  lemma VerbsAtRunTime(m: Compiled, params: seq<Param>)
    requires CompilesTo(m.template, Ok(m)) && m.signature.verbs != "" && PlainParams(params)
    ensures m.formatted && FormatVerbs(Substitute(m.template, 0, params)) == Some(m.signature.verbs)
  {
    AcceptedIff(m.template, Ok(m));
    ScanIsTokenize(m.template, 0);
    assert m.template[0..] == m.template;
    SubstitutionKeepsVerbs(m.template, 0, params);
  }

  // ------------------------------------------------ plain arguments are needed

  /** A message that puts the argument `k` in front of the letter of a verb and of a verb. */
  function Witness(k: nat): string {
    "{" + Decimal(k) + "}" + "s%d"
  }

  lemma WitnessParts(k: nat)
    ensures var s, end := Witness(k), |Decimal(k)| + 2;
            && end + 3 == |s| && s[1..end - 1] == Decimal(k) && s[end..] == "s%d"
            && IsPlaceholder(s, Span(0, end)) && '%' !in s[..end]
            && forall i :: end <= i < |s| ==> s[i] != '{'
  {
    var s, end := Witness(k), |Decimal(k)| + 2;
    DecimalRoundTrip(k);
    assert s[1..end - 1] == Decimal(k) && s[end..] == "s%d";
    assert forall i :: 1 <= i < end - 1 ==> s[i] == Decimal(k)[i - 1];
    forall i | end <= i < |s| ensures s[i] != '{' {
      assert s[i] == "s%d"[i - end];
    }
  }

  lemma WitnessSpans(k: nat)
    ensures var s, end := Witness(k), |Decimal(k)| + 2;
            end <= |s| && MatchAt(s, 0) == Some(end) && Spans(s, 0) == [Span(0, end)] && Spans(s, end) == []
  {
    var s, end := Witness(k), |Decimal(k)| + 2;
    WitnessParts(k);
    MatchAtExact(s, 0, end);
    if Spans(s, end) != [] {
      SpansExact(s, end, Spans(s, end)[0]);
    }
  }

  /** The verbs of a text in front of "s%d" are right exactly when the text reads as text. */
  lemma {:induction false} TextBeforeVerb(text: string)
    ensures FormatVerbs(text + "s%d").Some? ==> FormatVerbs(text + "s%d").value != ""
    ensures FormatVerbs(text + "s%d") == Some("d") <==> ReadsAsText(text)
  {
    if text == "" || text == "%" {
      VerbsOfTail();
      assert "" + "s%d" == "s%d" && "%" + "s%d" == "%s" + "%d";
    } else if text[0] != '%' || text[1] == '%' || IsVerb(text[1]) {
      var width := if text[0] != '%' then 1 else 2;
      var token := if text[0] != '%' then Text(text[0]) else if text[1] == '%' then Escape else Verb(text[1]);
      TextBeforeVerb(text[width..]);
      assert text == TokenText(token) + text[width..];
      assert text + "s%d" == TokenText(token) + (text[width..] + "s%d");
      TokenPrefix(token, text[width..] + "s%d");
    }
  }

  lemma VerbsOfTail()
    ensures FormatVerbs("s%d") == Some("d") && FormatVerbs("%s" + "%d") == Some("sd")
  {
    assert FormatVerbs("") == Some("");
    TokenPrefix(Verb('d'), "");
    assert "%d" == "%d" + "" && "d" + "" == "d";
    TokenPrefix(Text('s'), "%d");
    assert "s%d" == "s" + "%d";
    TokenPrefix(Verb('s'), "%d");
    assert "s" + "d" == "sd";
  }

  /** The witness is an accepted message with the verb %d. */
  lemma WitnessVerbs(k: nat)
    ensures HasVerb(Witness(k)) && ScanVerbs(Witness(k), 0, true) == Ok("d")
  {
    var s, end := Witness(k), |Decimal(k)| + 2;
    WitnessParts(k);
    NoPercentReadsAsText(s[..end]);
    TextBeforeVerb(s[..end]);
    assert s == s[..end] + "s%d" && s[0..] == s;
    assert s[end + 1] == "s%d"[1] && s[end + 2] == "s%d"[2];
    ScanIsTokenize(s, 0);
  }

  lemma WitnessCompiles(k: nat) returns (m: Compiled)
    requires k <= MAX_INT
    ensures m.template == Witness(k) && CompilesTo(m.template, Ok(m)) && m.signature.verbs == "d"
  {
    var s, end := Witness(k), |Decimal(k)| + 2;
    WitnessParts(k);
    WitnessSpans(k);
    WitnessVerbs(k);
    IndexOfPrinted(s, Span(0, end), k);
    assert Spans(s, 0)[1..] == [];
    m := Compiled(s, PlaceholdersOf(s, Spans(s, 0)), Signature([k], "d"), true);
    assert Indexes(s, []) == Some({});
    assert {k} + {} == {k};
  }

  /** A template that starts with its only placeholder. */
  lemma OnlyPlaceholder(s: string, end: nat, params: seq<Param>)
    requires MatchAt(s, 0) == Some(end) && Spans(s, end) == []
    ensures Substitute(s, 0, params) == Replacement(s, Span(0, end), params) + s[end..]
  {
    SubstituteRest(s, end, params);
  }

  lemma OnlyNumber(s: string, end: nat, k: nat, params: seq<Param>)
    requires MatchAt(s, 0) == Some(end) && Spans(s, end) == []
    requires k < |params| && k <= MAX_INT && s[1..end - 1] == Decimal(k)
    ensures Substitute(s, 0, params) == params[k].printed + s[end..]
  {
    OnlyPlaceholder(s, end, params);
    IndexOfPrinted(s, Span(0, end), k);
  }

  lemma WitnessSubstituted(k: nat, params: seq<Param>)
    requires k < |params| && k <= MAX_INT
    ensures Substitute(Witness(k), 0, params) == params[k].printed + "s%d"
  {
    WitnessParts(k);
    WitnessSpans(k);
    OnlyNumber(Witness(k), |Decimal(k)| + 2, k, params);
  }

  /** With these arguments a compiled message hands fmt.Sprintf exactly its signature's verbs. */
  ghost predicate KeepsVerbs(m: Compiled, params: seq<Param>) {
    FormatVerbs(Substitute(m.template, 0, params)) == Some(m.signature.verbs)
  }

  /**
   The exact condition: every accepted message with verbs keeps them exactly when every
   argument prints text in which percent signs are doubled.  The length of a slice is an
   int, so every argument can be named by a placeholder.
   */
  lemma VerbsKeptIff(params: seq<Param>)
    requires |params| <= MAX_INT
    ensures (forall m: Compiled :: CompilesTo(m.template, Ok(m)) && m.signature.verbs != "" ==> KeepsVerbs(m, params))
            <==> PlainParams(params)
  {
    if PlainParams(params) {
      forall m: Compiled | CompilesTo(m.template, Ok(m)) && m.signature.verbs != "" ensures KeepsVerbs(m, params) {
        VerbsAtRunTime(m, params);
      }
    } else {
      var k :| 0 <= k < |params| && !ReadsAsText(params[k].printed);
      var m := WitnessCompiles(k);
      WitnessSubstituted(k, params);
      TextBeforeVerb(params[k].printed);
      assert !KeepsVerbs(m, params);
    }
  }

  /** For instance a percent sign printed before a letter becomes a verb. */
  lemma PercentInArgument()
    ensures var params := [Param("%", "%", "%!d(string=%)", "string=%")];
            FormatVerbs("{0}s%d") == Some("d") && FormatVerbs(Substitute("{0}s%d", 0, params)) == Some("sd")
  {
    var params := [Param("%", "%", "%!d(string=%)", "string=%")];
    assert Decimal(0) == "0" && Witness(0) == "{0}s%d" == "{0}" + "s%d";
    TextBeforeVerb("{0}");
    NoPercentReadsAsText("{0}");
    WitnessSubstituted(0, params);
    VerbsOfTail();
    assert "%" + "s%d" == "%s" + "%d";
  }

  // ------------------------------------------------ what fmt.Sprintf prints

  function PieceText(piece: Piece): string {
    match piece
    case Literal(text) => text
    case Converted(verb, param) => if verb == 's' then param.asString else param.asNumber
    case Missing(verb) => "%!" + [verb] + "(MISSING)"
    case NoVerb => "%!(NOVERB)"
  }

  function PiecesText(pieces: seq<Piece>): string {
    if pieces == [] then "" else PieceText(pieces[0]) + PiecesText(pieces[1..])
  }

  /** The complaint about arguments that no verb consumed. */
  function ExtraText(params: seq<Param>): string {
    if params == [] then "" else "%!(EXTRA " + ExtraList(params) + ")"
  }

  function ExtraList(params: seq<Param>): string
    requires params != []
  {
    if |params| == 1 then params[0].asExtra else params[0].asExtra + ", " + ExtraList(params[1..])
  }

  /** fmt.Sprintf on the formats this model covers. */
  function Printed(tokens: seq<Token>, params: seq<Param>): string {
    PiecesText(Pieces(tokens, params, 0)) + ExtraText(Unused(params, |VerbsOf(tokens)|))
  }

  function Unused(params: seq<Param>, used: nat): seq<Param> {
    if used < |params| then params[used..] else []
  }

  ghost predicate IsSprintf(sprintf: Formatter) {
    forall text, params, tokens :: Tokenize(text) == Some(tokens) ==> sprintf(text, params) == Printed(tokens, params)
  }

  /**
   For fmt.Sprintf itself the renderers agree exactly when no verb is brought in or
   formatting gives the substituted text back.
   */
  lemma SprintfAgreesIff(s: string, params: seq<Param>, sprintf: Formatter)
    requires IsSprintf(sprintf) && Tokenize(Substitute(s, 0, params)).Some?
    ensures var text := Substitute(s, 0, params);
            Rendered(s, params, sprintf) == InjectParams(s, params, sprintf) <==>
            NoVerbAppears(s, params) || Printed(Tokenize(text).value, params) == text
  {
    if params != [] && HasVerb(s) {
      FormattedStaysFormatted(s, params);
    }
    var text := Substitute(s, 0, params);
    assert sprintf(text, params) == Printed(Tokenize(text).value, params);
  }

  /** The template {0} with one argument. */
  lemma SinglePlaceholder(param: Param)
    ensures Substitute("{0}", 0, [param]) == param.printed && !HasVerb("{0}")
  {
    var s := "{0}";
    assert DigitsEnd(s, 2) == 2 && DigitsEnd(s, 1) == 2;
    assert MatchAt(s, 0) == Some(3);
    assert s[1..2] == "0" && "0"[..0] == "" && DecimalValue("") == 0;
    assert DecimalValue("0") == 0;
    assert Substitute(s, 3, [param]) == "";
    assert param.printed + "" == param.printed;
  }

  /** One verb and its one argument. */
  lemma OneVerb(c: char, param: Param)
    requires IsVerb(c)
    ensures Tokenize(['%', c]) == Some([Verb(c)]) && HasVerb(['%', c])
    ensures Printed([Verb(c)], [param]) == if c == 's' then param.asString else param.asNumber
  {
    var s := ['%', c];
    assert s[2..] == "" && [Verb(c)] + [] == [Verb(c)];
    assert s[0] == '%' && IsVerb(s[1]);
    assert [Verb(c)][1..] == [];
    assert VerbsOf([Verb(c)]) == [c] + "" && |VerbsOf([Verb(c)])| == 1;
    var piece := Argument(c, [param], 0);
    assert Pieces([Verb(c)], [param], 0) == [piece] + Pieces([], [param], 1) == [piece];
    assert PiecesText([piece][1..]) == "" && PiecesText([piece]) == PieceText(piece) + "" == PieceText(piece);
  }

  /** An argument that brings %d in is rendered in two ways; one that brings %s in need not be. */
  lemma ArgumentBringsVerb(sprintf: Formatter)
    requires IsSprintf(sprintf)
    ensures var d := [Param("%d", "%d", "%!d(string=%d)", "string=%d")];
            Rendered("{0}", d, sprintf) == "%d" && InjectParams("{0}", d, sprintf) == "%!d(string=%d)"
    ensures var s := [Param("%s", "%s", "%!d(string=%s)", "string=%s")];
            !NoVerbAppears("{0}", s) && Rendered("{0}", s, sprintf) == "%s" == InjectParams("{0}", s, sprintf)
  {
    var d, s := Param("%d", "%d", "%!d(string=%d)", "string=%d"), Param("%s", "%s", "%!d(string=%s)", "string=%s");
    SinglePlaceholder(d);
    SinglePlaceholder(s);
    OneVerb('d', d);
    OneVerb('s', s);
    assert ['%', 'd'] == "%d" && ['%', 's'] == "%s";
  }
}
