/**
 Compiling one message of a translation catalog, and rendering it: the precompiled
 renderer against the naive one, and the static signature against run-time formatting.
 */
module Messages {
  import opened Wrappers
  import opened Scanners

  /** An argument, by what fmt.Sprint, %s, %d and the list of extra arguments print of it. */
  datatype Param = Param(printed: string, asString: string, asNumber: string, asExtra: string)

  datatype Placeholder = Placeholder(start: nat, end: nat, index: nat)

  datatype Signature = Signature(indexed: seq<nat>, verbs: string)

  datatype Compiled = Compiled(template: string, placeholders: seq<Placeholder>, signature: Signature, formatted: bool)

  datatype MessageError = IndexTooLarge | UnsupportedVerb | UnescapedPercent

  // ------------------------------------------------------------ the signature

  /** The indexes of the placeholders, or nothing if one does not fit an int. */
  function Indexes(s: string, spans: seq<Span>): Option<set<nat>> {
    if spans == [] then Some({})
    else if IndexOf(s, spans[0]).None? then None
    else WithIndexes({IndexOf(s, spans[0]).value}, Indexes(s, spans[1..]))
  }

  function WithIndexes(found: set<nat>, later: Option<set<nat>>): Option<set<nat>> {
    if later.None? then None else Some(found + later.value)
  }

  /** The set is that of the spans' indexes, and exists when every span has one. */
  lemma {:induction false} IndexesExact(s: string, spans: seq<Span>)
    ensures Indexes(s, spans).Some? <==> forall span :: span in spans ==> IndexOf(s, span).Some?
    ensures Indexes(s, spans).Some? ==>
              forall x: nat :: x in Indexes(s, spans).value <==> exists span :: span in spans && IndexOf(s, span) == Some(x)
  {
    if spans != [] {
      IndexesExact(s, spans[1..]);
      assert spans == [spans[0]] + spans[1..];
      assert forall span :: span in spans <==> span == spans[0] || span in spans[1..];
    }
  }

  lemma EveryIndexFits(s: string, spans: seq<Span>, k: nat)
    requires Indexes(s, spans).Some? && k < |spans|
    ensures IndexOf(s, spans[k]).Some?
  {
    IndexesExact(s, spans);
    assert spans[k] in spans;
  }

  predicate Increasing(list: seq<nat>) {
    forall i, j :: 0 <= i < j < |list| ==> list[i] < list[j]
  }

  lemma IncreasingTail(a: seq<nat>, x: nat)
    requires Increasing(a) && a != []
    ensures x in a[1..] <==> x in a && x > a[0]
    ensures x in a ==> x >= a[0]
  {
    assert a == [a[0]] + a[1..];
  }

  /** The sorted listing of a set is unique, so no iteration order shows in it. */
  lemma {:induction false} SortedListingIsUnique(a: seq<nat>, b: seq<nat>)
    requires Increasing(a) && Increasing(b)
    requires forall x :: x in a <==> x in b
    ensures a == b
  {
    assert a != [] ==> a[0] in b;
    assert b != [] ==> b[0] in a;
    if a != [] {
      IncreasingTail(a, b[0]);
      IncreasingTail(b, a[0]);
      forall x ensures x in a[1..] <==> x in b[1..] {
        if x >= 0 {
          IncreasingTail(a, x);
          IncreasingTail(b, x);
        }
      }
      SortedListingIsUnique(a[1..], b[1..]);
    }
  }

  /** sort.Ints. */
  function Sort(list: seq<nat>): seq<nat> {
    if list == [] then [] else Insert(list[0], Sort(list[1..]))
  }

  function Insert(x: nat, sorted: seq<nat>): seq<nat> {
    if sorted == [] || x <= sorted[0] then [x] + sorted else [sorted[0]] + Insert(x, sorted[1..])
  }

  lemma {:induction false} InsertExact(x: nat, sorted: seq<nat>)
    requires Increasing(sorted) && x !in sorted
    ensures forall y :: y in Insert(x, sorted) <==> y == x || y in sorted
    ensures Increasing(Insert(x, sorted))
  {
    if sorted != [] && x > sorted[0] {
      var rest := Insert(x, sorted[1..]);
      InsertExact(x, sorted[1..]);
      assert sorted == [sorted[0]] + sorted[1..];
      forall k | 0 <= k < |rest| ensures rest[k] > sorted[0] {
        assert rest[k] in rest;
      }
    }
  }

  lemma {:induction false} SortExact(list: seq<nat>)
    requires forall i, j :: 0 <= i < j < |list| ==> list[i] != list[j]
    ensures forall x :: x in Sort(list) <==> x in list
    ensures Increasing(Sort(list))
  {
    if list != [] {
      SortExact(list[1..]);
      assert list == [list[0]] + list[1..];
      InsertExact(list[0], Sort(list[1..]));
    }
  }

  /** The percent scan of `parseMessageSignature` from `i` on. */
  function ScanVerbs(s: string, i: nat, formatted: bool): Result<string, MessageError>
    decreases |s| - i
  {
    if i >= |s| then Ok("")
    else if s[i] != '%' || i + 1 >= |s| then ScanVerbs(s, i + 1, formatted)
    else if s[i + 1] == '%' then ScanVerbs(s, i + 2, formatted)
    else if IsVerb(s[i + 1]) then
      Found([s[i + 1]], ScanVerbs(s, i + 2, formatted))
    else if JavaVerbAt(s, i) then Err(UnsupportedVerb)
    else if formatted then Err(UnescapedPercent)
    else ScanVerbs(s, i + 1, formatted)
  }

  /** The result of a scan that had already found `verbs`. */
  function Found(verbs: string, later: Result<string, MessageError>): Result<string, MessageError> {
    match later
    case Ok(rest) => Ok(verbs + rest)
    case Err(e) => Err(e)
  }

  lemma FoundTwice(first: string, second: string, later: Result<string, MessageError>)
    ensures Found(first, Found(second, later)) == Found(first + second, later)
    ensures Found("", later) == later
    ensures Found(first, Ok("")) == Ok(first)
  {
    assert first + "" == first;
    if later.Ok? {
      assert first + (second + later.value) == first + second + later.value;
      assert "" + later.value == later.value;
    }
  }

  /** The signature a message has, or the error it is rejected with. */
  ghost predicate HasSignature(s: string, r: Result<Signature, MessageError>) {
    var indexes := Indexes(s, Spans(s, 0));
    if indexes.None? then r == Err(IndexTooLarge)
    else match ScanVerbs(s, 0, HasVerb(s))
         case Err(e) => r == Err(e)
         case Ok(verbs) =>
           && r.Ok? && r.value.verbs == verbs
           && Increasing(r.value.indexed) && forall x :: x in r.value.indexed <==> x in indexes.value
  }

  /** A message has one signature, however the set of its indexes is iterated. */
  lemma SignatureIsUnique(s: string, r: Result<Signature, MessageError>, r': Result<Signature, MessageError>)
    requires HasSignature(s, r) && HasSignature(s, r')
    ensures r == r'
  {
    if r.Ok? {
      SortedListingIsUnique(r.value.indexed, r'.value.indexed);
    }
  }

  /** The keys of the index map, collected in any order and then sorted. */
  method SortedIndexes(indexes: set<nat>) returns (indexed: seq<nat>)
    ensures Increasing(indexed) && forall x :: x in indexed <==> x in indexes
  {
    indexed := [];
    var rest := indexes;
    while rest != {}
      invariant forall x :: x in indexes <==> x in rest || x in indexed
      invariant forall x :: x in indexed ==> x !in rest
      invariant forall i, j :: 0 <= i < j < |indexed| ==> indexed[i] != indexed[j]
    {
      var x :| x in rest;
      indexed := indexed + [x];
      rest := rest - {x};
    }
    SortExact(indexed);
    indexed := Sort(indexed);
  }

  method CollectIndexes(message: string) returns (indexes: Option<set<nat>>)
    ensures indexes == Indexes(message, Spans(message, 0))
  {
    var matches := Spans(message, 0);
    var found: set<nat> := {};
    assert matches[0..] == matches;
    assert Indexes(message, matches).Some? ==> {} + Indexes(message, matches).value == Indexes(message, matches).value;
    for k := 0 to |matches|
      invariant Indexes(message, matches) == WithIndexes(found, Indexes(message, matches[k..]))
    {
      assert matches[k..][0] == matches[k] && matches[k..][1..] == matches[k + 1..];
      var index := IndexOf(message, matches[k]);
      if index.None? {
        return None;
      }
      ghost var later := Indexes(message, matches[k + 1..]);
      assert later.Some? ==> found + ({index.value} + later.value) == found + {index.value} + later.value;
      found := found + {index.value};
    }
    indexes := Some(found);
  }

  method CollectVerbs(message: string, formatted: bool) returns (r: Result<string, MessageError>)
    ensures r == ScanVerbs(message, 0, formatted)
  {
    var verbs := "";
    var index := 0;
    FoundTwice("", "", ScanVerbs(message, 0, formatted));
    while index < |message|
      invariant ScanVerbs(message, 0, formatted) == Found(verbs, ScanVerbs(message, index, formatted))
      decreases |message| - index
    {
      if message[index] != '%' || index + 1 >= |message| {
        index := index + 1;
        continue;
      }
      var next := message[index + 1];
      if next == '%' {
        index := index + 1;
      } else if IsVerb(next) {
        FoundTwice(verbs, [next], ScanVerbs(message, index + 2, formatted));
        verbs := verbs + [next];
        index := index + 1;
      } else {
        if JavaVerbAt(message, index) {
          return Err(UnsupportedVerb);
        }
        if formatted {
          return Err(UnescapedPercent);
        }
      }
      index := index + 1;
    }
    FoundTwice(verbs, "", Ok(""));
    r := Ok(verbs);
  }

  method ParseMessageSignature(message: string) returns (r: Result<Signature, MessageError>)
    ensures HasSignature(message, r)
  {
    var indexes := CollectIndexes(message);
    if indexes.None? {
      return Err(IndexTooLarge);
    }
    var indexed := SortedIndexes(indexes.value);
    var verbs := CollectVerbs(message, HasVerb(message));
    match verbs
    case Ok(found) => r := Ok(Signature(indexed, found));
    case Err(e) => r := Err(e);
  }

  /** slices.Equal on both parts. */
  predicate SameMessageSignature(first: Signature, second: Signature) {
    first.indexed == second.indexed && first.verbs == second.verbs
  }

  // ------------------------------------------------------------ compilation

  function PlaceholdersOf(s: string, spans: seq<Span>): seq<Placeholder> {
    if spans == [] then []
    else [Placeholder(spans[0].start, spans[0].end, if IndexOf(s, spans[0]).Some? then IndexOf(s, spans[0]).value else 0)]
         + PlaceholdersOf(s, spans[1..])
  }

  /** What compiling a message gives. */
  ghost predicate CompilesTo(s: string, r: Result<Compiled, MessageError>) {
    match r
    case Ok(c) =>
      && HasSignature(s, Ok(c.signature))
      && c.template == s && c.formatted == HasVerb(s)
      && c.placeholders == PlaceholdersOf(s, Spans(s, 0))
    case Err(e) => HasSignature(s, Err(e))
  }

  lemma CompilationIsUnique(s: string, r: Result<Compiled, MessageError>, r': Result<Compiled, MessageError>)
    requires CompilesTo(s, r) && CompilesTo(s, r')
    ensures r == r'
  {
    var signature := match r case Ok(c) => Ok(c.signature) case Err(e) => Err(e);
    var signature' := match r' case Ok(c) => Ok(c.signature) case Err(e) => Err(e);
    SignatureIsUnique(s, signature, signature');
  }

  lemma {:induction false} PlaceholdersAt(s: string, spans: seq<Span>)
    ensures |PlaceholdersOf(s, spans)| == |spans|
    ensures forall k :: 0 <= k < |spans| ==>
              var p := PlaceholdersOf(s, spans)[k];
              p.start == spans[k].start && p.end == spans[k].end && (IndexOf(s, spans[k]).Some? ==> IndexOf(s, spans[k]).value == p.index)
  {
    if spans != [] {
      PlaceholdersAt(s, spans[1..]);
    }
  }

  /**
   The two passes agree: the signature lists exactly the indexes of the placeholders, and
   these are exactly the occurrences of a braced number in the template.
   */
  lemma IndexedArePlaceholders(s: string, c: Compiled, x: nat)
    requires CompilesTo(s, Ok(c))
    ensures x in c.signature.indexed <==> exists k :: 0 <= k < |c.placeholders| && c.placeholders[k].index == x
    ensures forall span: Span :: IsPlaceholder(s, span) <==>
              exists k :: 0 <= k < |c.placeholders| && c.placeholders[k].start == span.start && c.placeholders[k].end == span.end
  {
    var spans := Spans(s, 0);
    IndexesExact(s, spans);
    PlaceholdersAt(s, spans);
    forall k | 0 <= k < |spans| ensures IndexOf(s, spans[k]) == Some(c.placeholders[k].index) {
      assert spans[k] in spans;
    }
    forall span: Span ensures IsPlaceholder(s, span) <==> span in spans {
      SpansExact(s, 0, span);
    }
    forall span: Span | span in spans
      ensures exists k :: 0 <= k < |c.placeholders| && c.placeholders[k].start == span.start && c.placeholders[k].end == span.end {
      var k :| 0 <= k < |spans| && spans[k] == span;
      assert c.placeholders[k].start == span.start;
    }
    forall span: Span, k | 0 <= k < |c.placeholders| && c.placeholders[k].start == span.start && c.placeholders[k].end == span.end
      ensures span in spans {
      assert spans[k] == span;
    }
  }

  /**
   Compiles a message.  The second pass over the placeholders never fails where the
   signature's own pass succeeded.
   */
  method CompileMessage(message: string) returns (r: Result<Compiled, MessageError>)
    ensures CompilesTo(message, r)
  {
    var signature := ParseMessageSignature(message);
    if signature.Err? {
      return Err(signature.error);
    }
    var matches := Spans(message, 0);
    var placeholders := [];
    assert matches[0..] == matches;
    for k := 0 to |matches|
      invariant PlaceholdersOf(message, matches) == placeholders + PlaceholdersOf(message, matches[k..])
    {
      EveryIndexFits(message, matches, k);
      assert matches[k..][0] == matches[k] && matches[k..][1..] == matches[k + 1..];
      var index := IndexOf(message, matches[k]);
      if index.None? {
        return Err(IndexTooLarge);
      }
      placeholders := placeholders + [Placeholder(matches[k].start, matches[k].end, index.value)];
    }
    r := Ok(Compiled(message, placeholders, signature.value, HasVerb(message)));
  }

  // ------------------------------------------------------------ rendering

  /** What a placeholder is replaced by: the argument, or its own text if there is none. */
  function Replacement(s: string, span: Span, params: seq<Param>): string
    requires span.start <= span.end <= |s|
  {
    var index := IndexOf(s, span);
    if index.None? || index.value >= |params| then s[span.start..span.end] else params[index.value].printed
  }

  /** ReplaceAllStringFunc from `i` on: the naive substitution. */
  function Substitute(s: string, i: nat, params: seq<Param>): string
    decreases |s| - i
  {
    if i >= |s| then ""
    else match MatchAt(s, i)
         case Some(end) => Replacement(s, Span(i, end), params) + Substitute(s, end, params)
         case None => [s[i]] + Substitute(s, i + 1, params)
  }

  type Formatter = (string, seq<Param>) -> string

  /** `injectParams`, for any fmt.Sprintf. */
  function InjectParams(s: string, params: seq<Param>, sprintf: Formatter): string {
    if params == [] then s
    else
      var text := Substitute(s, 0, params);
      if HasVerb(text) then sprintf(text, params) else text
  }

  /** The text `render` produces, by the naive substitution. */
  function Rendered(s: string, params: seq<Param>, sprintf: Formatter): string {
    if params == [] then s
    else if HasVerb(s) then sprintf(Substitute(s, 0, params), params)
    else Substitute(s, 0, params)
  }

  /** With no arguments the substitution rebuilds the template from its gaps and placeholders. */
  lemma {:induction false} SubstituteNothing(s: string, i: nat)
    requires i <= |s|
    ensures Substitute(s, i, []) == s[i..]
    decreases |s| - i
  {
    if i < |s| {
      match MatchAt(s, i)
      case Some(end) => SubstituteNothing(s, end);
      case None => SubstituteNothing(s, i + 1);
    }
  }

  /** Without a placeholder the substitution copies the rest. */
  lemma {:induction false} SubstituteRest(s: string, i: nat, params: seq<Param>)
    requires i <= |s| && Spans(s, i) == []
    ensures Substitute(s, i, params) == s[i..]
    decreases |s| - i
  {
    if i < |s| {
      assert MatchAt(s, i).None?;
      SubstituteRest(s, i + 1, params);
      assert s[i..] == [s[i]] + s[i + 1..];
    }
  }

  lemma Inner(s: string, a: nat, b: nat)
    requires a + 2 <= b <= |s|
    ensures s[a + 1..b - 1] == s[a..b][1..b - a - 1]
  {
    var inner, text := s[a + 1..b - 1], s[a..b];
    assert |inner| == |text[1..b - a - 1]|;
    forall k | 0 <= k < |inner| ensures inner[k] == text[1..b - a - 1][k] {
      assert text[1..b - a - 1][k] == text[k + 1] == s[a + 1 + k];
    }
  }

  /** The replacement depends on the placeholder's text only. */
  lemma ReplacementOfText(s: string, span: Span, s': string, span': Span, params: seq<Param>)
    requires span.start + 2 <= span.end <= |s| && span'.start + 2 <= span'.end <= |s'|
    requires s[span.start..span.end] == s'[span'.start..span'.end]
    ensures Replacement(s, span, params) == Replacement(s', span', params)
  {
    assert |s[span.start..span.end]| == span.end - span.start && |s'[span'.start..span'.end]| == span'.end - span'.start;
    Inner(s, span.start, span.end);
    Inner(s', span'.start, span'.end);
  }

  /** One step of the substitution: what it writes, and where it goes on. */
  lemma SubstituteStep(s: string, i: nat, params: seq<Param>) returns (head: string, next: nat)
    requires i < |s|
    ensures i < next <= |s| && Substitute(s, i, params) == head + Substitute(s, next, params)
    ensures if MatchAt(s, i).Some? then MatchAt(s, i) == Some(next) && i + 3 <= next && head == Replacement(s, Span(i, next), params)
            else next == i + 1 && head == [s[i]]
  {
    next := if MatchAt(s, i).Some? then MatchAt(s, i).value else i + 1;
    head := if MatchAt(s, i).Some? then Replacement(s, Span(i, next), params) else [s[i]];
  }

  /** Equal text gives equal steps. */
  lemma SameHead(s: string, i: nat, next: nat, head: string, s': string, i': nat, next': nat, head': string, params: seq<Param>)
    requires i < next <= |s| && i' < next' <= |s'| && s[i..next] == s'[i'..next']
    requires if MatchAt(s, i).Some? then i + 3 <= next && head == Replacement(s, Span(i, next), params)
             else next == i + 1 && head == [s[i]]
    requires if MatchAt(s', i').Some? then i' + 3 <= next' && head' == Replacement(s', Span(i', next'), params)
             else next' == i' + 1 && head' == [s'[i']]
    requires MatchAt(s, i).Some? <==> MatchAt(s', i').Some?
    ensures head == head'
  {
    if MatchAt(s, i).Some? {
      ReplacementOfText(s, Span(i, next), s', Span(i', next'), params);
    } else {
      assert s[i] == s[i..next][0] && s'[i'] == s'[i'..next'][0];
    }
  }

  /** No match reaches over the start of another. */
  lemma MatchBefore(s: string, i: nat, k: nat)
    requires i < k < |s| && s[k] == '{'
    ensures MatchAt(s, i) == MatchAt(s[..k], i)
    ensures MatchAt(s, i).Some? ==> MatchAt(s, i).value <= k
  {
    var front := s[..k];
    if e: nat :| MatchAt(s, i) == Some(e) {
      MatchAtExact(s, i, e);
      assert e <= k;
      MatchAtExact(front, i, e);
    }
    if e: nat :| MatchAt(front, i) == Some(e) {
      MatchAtExact(front, i, e);
      MatchAtExact(s, i, e);
    }
  }

  lemma {:induction false} SubstituteBefore(s: string, i: nat, k: nat, params: seq<Param>)
    requires i <= k < |s| && s[k] == '{'
    ensures Substitute(s, i, params) == Substitute(s[..k], i, params) + Substitute(s, k, params)
    decreases k - i
  {
    var later := Substitute(s, k, params);
    if i == k {
      assert "" + later == later;
    } else {
      var head, next := SubstituteStep(s, i, params);
      var head', next' := SubstituteStep(s[..k], i, params);
      MatchBefore(s, i, k);
      assert s[i..next] == s[..k][i..next'];
      SameHead(s, i, next, head, s[..k], i, next', head', params);
      SubstituteBefore(s, next, k, params);
      Associate(head, Substitute(s[..k], next, params), later);
    }
  }

  lemma Associate(a: string, b: string, c: string)
    ensures a + (b + c) == (a + b) + c
  {
  }

  lemma ReplacementByNumber(s: string, span: Span, params: seq<Param>)
    requires IsPlaceholder(s, span) && |params| <= MAX_INT
    ensures var n := DecimalValue(s[span.start + 1..span.end - 1]);
            Replacement(s, span, params) == if n < |params| then params[n].printed else s[span.start..span.end]
  {
  }

  lemma SubstituteFrom(s: string, params: seq<Param>, span: Span)
    requires MatchAt(s, span.start) == Some(span.end)
    ensures Substitute(s, span.start, params) == Replacement(s, span, params) + Substitute(s, span.end, params)
  {
  }

  /**
   What stands in the output for a placeholder: the argument with its number, or its own text
   if there is none, between the output for the text before it and that from its end on.
   */
  lemma PlaceholderInOutput(s: string, params: seq<Param>, span: Span, n: nat)
    requires IsPlaceholder(s, span) && n == DecimalValue(s[span.start + 1..span.end - 1]) && |params| <= MAX_INT
    ensures Substitute(s, 0, params) ==
            Substitute(s[..span.start], 0, params)
              + ((if n < |params| then params[n].printed else s[span.start..span.end]) + Substitute(s, span.end, params))
  {
    MatchAtExact(s, span.start, span.end);
    SubstituteBefore(s, 0, span.start, params);
    SubstituteFrom(s, params, span);
    ReplacementByNumber(s, span, params);
  }

  /** Text without placeholders is copied. */
  lemma TextInOutput(s: string, params: seq<Param>)
    requires forall span :: !IsPlaceholder(s, span)
    ensures Substitute(s, 0, params) == s
  {
    if Spans(s, 0) != [] {
      SpansExact(s, 0, Spans(s, 0)[0]);
    }
    SubstituteRest(s, 0, params);
  }

  /** Before the first placeholder nothing matches, and from it on the spans go on after its end. */
  lemma {:induction false} FirstSpan(s: string, i: nat, span: Span)
    requires i <= |s| && Spans(s, i) != [] && span == Spans(s, i)[0]
    ensures i <= span.start < span.end <= |s| && MatchAt(s, span.start) == Some(span.end)
    ensures forall k :: i <= k < span.start ==> MatchAt(s, k).None?
    ensures Spans(s, span.end) == Spans(s, i)[1..]
    decreases |s| - i
  {
    if MatchAt(s, i).None? {
      FirstSpan(s, i + 1, span);
    }
  }

  /** The substitution copies characters where nothing matches. */
  lemma {:induction false} SubstituteCopies(s: string, i: nat, j: nat, params: seq<Param>)
    requires i <= j <= |s| && forall k :: i <= k < j ==> MatchAt(s, k).None?
    ensures Substitute(s, i, params) == s[i..j] + Substitute(s, j, params)
    decreases j - i
  {
    var rest := Substitute(s, j, params);
    if i == j {
      assert s[i..j] + rest == rest;
    } else {
      assert MatchAt(s, i).None?;
      SubstituteCopies(s, i + 1, j, params);
      assert s[i..j] + rest == [s[i]] + (s[i + 1..j] + rest);
    }
  }

  /** The substitution copies the gap before the first placeholder, replaces it, and goes on after it. */
  lemma SubstituteGap(s: string, i: nat, params: seq<Param>, span: Span)
    requires i <= |s| && Spans(s, i) != [] && span == Spans(s, i)[0]
    ensures i <= span.start <= span.end <= |s|
    ensures Spans(s, span.end) == Spans(s, i)[1..]
    ensures Substitute(s, i, params) == s[i..span.start] + (Replacement(s, span, params) + Substitute(s, span.end, params))
  {
    FirstSpan(s, i, span);
    SubstituteCopies(s, i, span.start, params);
  }

  /**
   `render`: copies gaps and arguments from the precompiled placeholders.  Whatever
   fmt.Sprintf is, the text handed to it is the naive substitution.
   */
  method Render(message: Compiled, params: seq<Param>, sprintf: Formatter) returns (result: string)
    requires CompilesTo(message.template, Ok(message))
    ensures result == Rendered(message.template, params, sprintf)
  {
    if |params| == 0 {
      return message.template;
    }
    ghost var s := message.template;
    result := "";
    var last: nat := 0;
    PlaceholdersAt(s, Spans(s, 0));
    for k := 0 to |message.placeholders|
      invariant last <= |s|
      invariant Spans(s, last) == Spans(s, 0)[k..]
      invariant Substitute(s, 0, params) == result + Substitute(s, last, params)
    {
      var placeholder := message.placeholders[k];
      ghost var span := Spans(s, 0)[k];
      EveryIndexFits(s, Spans(s, 0), k);
      SubstituteGap(s, last, params, span);
      var gap := message.template[last..placeholder.start];
      var text := message.template[placeholder.start..placeholder.end];
      if placeholder.index < |params| {
        text := params[placeholder.index].printed;
      }
      assert text == Replacement(s, span, params);
      Reassociate(result, gap, text, Substitute(s, span.end, params));
      result := result + gap + text;
      last := placeholder.end;
    }
    SubstituteRest(s, last, params);
    result := result + message.template[last..];
    if message.formatted {
      result := sprintf(result, params);
    }
  }

  lemma Reassociate(a: string, b: string, c: string, d: string)
    ensures a + (b + (c + d)) == a + b + c + d
  {
  }
}
