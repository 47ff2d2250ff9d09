/**
 * InputParser: turns a line of text such as "{1, 2, 3}" or "apple, banana" into
 * the ordered list of SetElements it denotes, plus the helpers beside it
 * (parsing a pre-split array, an integer range, de-duplication, display).
 * The class has no state, so its methods are modelled as module members.
 */
module InputParser {
  import opened Outcomes
  import opened JavaText
  import opened Seqs
  import opened Model

  // ---------------------------------------------------------------------------
  // Failure messages (InvalidSetException detail messages)
  // ---------------------------------------------------------------------------

  function EmptyInputMessage(setName: string): string {
    "Input cannot be null or empty for set " + setName
  }

  function NoElementsMessage(setName: string): string {
    "No elements found in set " + setName
  }

  function InvalidElementMessage(token: string, setName: string): string {
    "Invalid element '" + token + "' in set " + setName
  }

  function NoValidElementsMessage(setName: string): string {
    "Set " + setName + " contains no valid elements"
  }

  function EmptyArrayMessage(setName: string): string {
    "Element array cannot be null or empty for set " + setName
  }

  function InvalidRangeMessage(setName: string): string {
    "Invalid range for set " + setName + ": start must be <= end"
  }

  // ---------------------------------------------------------------------------
  // removeSetNotation
  // ---------------------------------------------------------------------------

  /**
   * removeSetNotation: drop one leading '{' if there is one, then one trailing '}'
   * if there is one, then trim.
   */
  function RemoveSetNotation(input: string): (r: string)
    ensures IsTrimmed(r)
    ensures |r| <= |input|
    ensures (input == [] || (input[0] != '{' && input[|input| - 1] != '}')) ==> r == Trim(input)
  {
    var afterStart := if |input| > 0 && input[0] == '{' then input[1..] else input;
    var afterEnd :=
      if |afterStart| > 0 && afterStart[|afterStart| - 1] == '}' then afterStart[..|afterStart| - 1]
      else afterStart;
    Trim(afterEnd)
  }

  /** Wrapping any text in braces is undone by removeSetNotation, up to trimming; only one brace goes from each side. */
  lemma RemoveSetNotationUnwraps(x: string)
    ensures RemoveSetNotation("{" + x + "}") == Trim(x)
  {
    var s := "{" + x + "}";
    assert s[1..] == x + "}";
    assert (x + "}")[..|x|] == x;
  }

  /** A leading brace alone is removed when the text does not end in one. */
  lemma RemoveSetNotationLeadingOnly(x: string)
    requires x == [] || x[|x| - 1] != '}'
    ensures RemoveSetNotation("{" + x) == Trim(x)
  {
    assert ("{" + x)[1..] == x;
  }

  /** A trailing brace alone is removed when the text does not start with one. */
  lemma RemoveSetNotationTrailingOnly(x: string)
    requires x == [] || x[0] != '{'
    ensures RemoveSetNotation(x + "}") == Trim(x)
  {
    assert (x + "}")[..|x|] == x;
  }

  // ---------------------------------------------------------------------------
  // isValidElement
  // ---------------------------------------------------------------------------

  /** The regular-expression class [a-zA-Z0-9\s._-]; \s is space, tab, newline, vertical tab, form feed, carriage return. */
  predicate IsAllowedChar(c: char)
    ensures IsAllowedChar(c) ==> c != ',' && c != '{' && c != '}'
  {
    || ('a' <= c <= 'z') || ('A' <= c <= 'Z') || ('0' <= c <= '9')
    || c == ' ' || c == '\t' || c == '\n' || c as int == 0x0B || c as int == 0x0C || c == '\r'
    || c == '.' || c == '_' || c == '-'
  }

  /** isValidElement: the whole element matches [a-zA-Z0-9\s._-]+, one or more characters of the class. */
  predicate IsValidElement(element: string) {
    |element| > 0 && forall k :: 0 <= k < |element| ==> IsAllowedChar(element[k])
  }

  /** A valid element holds no comma and no brace, so it survives splitting and set notation intact. */
  lemma ValidElementHasNoDelimiter(element: string)
    requires IsValidElement(element)
    ensures ',' !in element && '{' !in element && '}' !in element
  {
    forall k | 0 <= k < |element| ensures element[k] != ',' && element[k] != '{' && element[k] != '}' {
      assert IsAllowedChar(element[k]);
    }
  }

  predicate AllValid(vals: seq<string>) {
    forall k :: 0 <= k < |vals| ==> IsValidElement(vals[k])
  }

  /** Where the parse loop throws: the first value that fails validation. */
  function FirstInvalidIndex(vals: seq<string>): (j: nat)
    requires !AllValid(vals)
    ensures j < |vals| && !IsValidElement(vals[j])
    ensures forall i :: 0 <= i < j ==> IsValidElement(vals[i])
  {
    if !IsValidElement(vals[0]) then 0 else 1 + FirstInvalidIndex(vals[1..])
  }

  // ---------------------------------------------------------------------------
  // Tokens
  // ---------------------------------------------------------------------------

  /** The pieces parseSet loops over: the trimmed line, without set notation, split on commas. */
  function Tokens(input: string): seq<string> {
    Split(RemoveSetNotation(Trim(input)))
  }

  /** The trimmed tokens that are not empty, in their original order and multiplicity. */
  function TrimmedTokens(tokens: seq<string>): (r: seq<string>)
    ensures |r| <= |tokens|
    ensures forall k :: 0 <= k < |r| ==> r[k] != "" && IsTrimmed(r[k])
  {
    if tokens == [] then []
    else
      var t := Trim(tokens[|tokens| - 1]);
      TrimmedTokens(tokens[..|tokens| - 1]) + (if t == "" then [] else [t])
  }

  lemma {:induction false} TrimmedTokensConcat(x: seq<string>, y: seq<string>)
    ensures TrimmedTokens(x + y) == TrimmedTokens(x) + TrimmedTokens(y)
    decreases |y|
  {
    if y == [] {
      assert x + y == x;
    } else {
      var y' := y[..|y| - 1];
      assert (x + y)[..|x + y| - 1] == x + y';
      TrimmedTokensConcat(x, y');
    }
  }

  /** When no token trims to nothing, every token survives, trimmed. */
  lemma {:induction false} TrimmedTokensAllSurvive(tokens: seq<string>)
    requires forall k :: 0 <= k < |tokens| ==> Trim(tokens[k]) != ""
    ensures |TrimmedTokens(tokens)| == |tokens|
    ensures forall k :: 0 <= k < |tokens| ==> TrimmedTokens(tokens)[k] == Trim(tokens[k])
    decreases |tokens|
  {
    if tokens != [] {
      TrimmedTokensAllSurvive(tokens[..|tokens| - 1]);
    }
  }

  /** The trailing empty pieces that split drops would have been skipped anyway. */
  lemma TrimmedTokensOfSplit(s: string)
    ensures TrimmedTokens(Split(s)) == TrimmedTokens(SplitAll(s))
  {
    if ',' in s {
      var ps := SplitAll(s);
      var r := DropTrailingEmpty(ps);
      var tail := ps[|r|..];
      assert ps == r + tail;
      TrimmedTokensConcat(r, tail);
      assert TrimmedTokens(tail) == [] by {
        TrimmedTokensNoneSurvive(tail);
      }
    } else {
      SplitAllNoComma(s);
    }
  }

  lemma {:induction false} TrimmedTokensNoneSurvive(tokens: seq<string>)
    requires forall k :: 0 <= k < |tokens| ==> tokens[k] == ""
    ensures TrimmedTokens(tokens) == []
    decreases |tokens|
  {
    if tokens != [] {
      assert Trim(tokens[|tokens| - 1]) == "";
      TrimmedTokensNoneSurvive(tokens[..|tokens| - 1]);
    }
  }

  // ---------------------------------------------------------------------------
  // Building elements
  // ---------------------------------------------------------------------------

  /** One SetElement per value, all tagged with setName. */
  function ElementsOf(vals: seq<string>, setName: string): (r: seq<SetElement>)
    ensures |r| == |vals|
    ensures forall k :: 0 <= k < |vals| ==> r[k].setName == setName && r[k].value == Trim(vals[k])
  {
    seq(|vals|, k requires 0 <= k < |vals| => NewSetElement(Some(vals[k]), setName))
  }

  /** The values of a list of elements, in order. */
  function Values(es: seq<SetElement>): (r: seq<string>)
    ensures |r| == |es| && forall k :: 0 <= k < |es| ==> r[k] == es[k].value
  {
    seq(|es|, k requires 0 <= k < |es| => es[k].value)
  }

  /** Building elements from trimmed values keeps the values exactly. */
  lemma ElementsOfTrimmed(vals: seq<string>, setName: string)
    requires forall k :: 0 <= k < |vals| ==> IsTrimmed(vals[k])
    ensures Values(ElementsOf(vals, setName)) == vals
    ensures forall k :: 0 <= k < |vals| ==> ElementsOf(vals, setName)[k] == SetElement(vals[k], setName)
  {
    var es := ElementsOf(vals, setName);
    forall k | 0 <= k < |vals| ensures es[k] == SetElement(vals[k], setName) {
      TrimTrimmed(vals[k]);
    }
  }

  lemma ElementsOfSnoc(vals: seq<string>, v: string, setName: string)
    ensures ElementsOf(vals + [v], setName) == ElementsOf(vals, setName) + [NewSetElement(Some(v), setName)]
  {
  }

  // ---------------------------------------------------------------------------
  // parseSet
  // ---------------------------------------------------------------------------

  /**
   * The loop of parseSet over the tokens, as a function of the tokens seen so
   * far: blank tokens are skipped, the first token outside the character class
   * stops the loop with an error, every other token becomes an element.
   */
  function ScanTokens(tokens: seq<string>, setName: string): Result<seq<SetElement>>
    decreases |tokens|
  {
    if tokens == [] then Success([])
    else
      match ScanTokens(tokens[..|tokens| - 1], setName)
      case Failure(m) => Failure(m)
      case Success(es) =>
        var t := Trim(tokens[|tokens| - 1]);
        if t == "" then Success(es)
        else if !IsValidElement(t) then Failure(InvalidElementMessage(t, setName))
        else Success(es + [NewSetElement(Some(t), setName)])
  }

  /**
   * What parseSet does with the pieces of a non-blank line: no pieces is an
   * error, the loop may stop with an error, no survivors is an error, and
   * otherwise the elements the loop collected.
   */
  function ParseTokens(tokens: seq<string>, setName: string): Result<seq<SetElement>> {
    if |tokens| == 0 then Failure(NoElementsMessage(setName))
    else
      match ScanTokens(tokens, setName)
      case Failure(m) => Failure(m)
      case Success(es) => if es == [] then Failure(NoValidElementsMessage(setName)) else Success(es)
  }

  /** What parseSet returns or throws, stated without its loop. */
  function ParseSetResult(input: Option<string>, setName: string): (r: Result<seq<SetElement>>)
    ensures input.None? || AllBlank(input.value) ==> r == Failure(EmptyInputMessage(setName))
  {
    if input.None? then Failure(EmptyInputMessage(setName))
    else if (TrimEmptyIff(input.value); Trim(input.value) == "") then Failure(EmptyInputMessage(setName))
    else ParseTokens(Tokens(input.value), setName)
  }

  /**
   * parseSet. Besides the list, returns whether the duplicate warning is printed
   * (distinct value count below the list size); duplicates stay in the list.
   */
  method ParseSet(input: Option<string>, setName: string) returns (r: Result<seq<SetElement>>, duplicateWarning: bool)
    ensures r == ParseSetResult(input, setName)
    ensures duplicateWarning <==> r.Success? && HasDuplicates(r.value)
  {
    if input.None? || Trim(input.value) == "" {
      return Failure(EmptyInputMessage(setName)), false;
    }
    var cleanedInput := RemoveSetNotation(Trim(input.value));
    var elements := Split(cleanedInput);
    if |elements| == 0 {
      return Failure(NoElementsMessage(setName)), false;
    }
    var setElements: seq<SetElement> := [];
    var i := 0;
    while i < |elements|
      invariant 0 <= i <= |elements|
      invariant ScanTokens(elements[..i], setName) == Success(setElements)
    {
      var trimmed := Trim(elements[i]);
      assert elements[..i + 1][..i] == elements[..i];
      if trimmed != "" {
        if !IsValidElement(trimmed) {
          ScanFailureSticks(elements, i + 1, setName);
          return Failure(InvalidElementMessage(trimmed, setName)), false;
        }
        setElements := setElements + [NewSetElement(Some(trimmed), setName)];
      }
      i := i + 1;
    }
    assert elements[..i] == elements;
    if setElements == [] {
      return Failure(NoValidElementsMessage(setName)), false;
    }
    duplicateWarning := CheckDuplicates(setElements);
    r := Success(setElements);
  }

  /**
   * The duplicate check at the end of parseSet: a warning when there are fewer
   * distinct values than elements, which is exactly when some value repeats.
   */
  method CheckDuplicates(setElements: seq<SetElement>) returns (warn: bool)
    ensures warn <==> HasDuplicates(setElements)
  {
    var distinctCount := DistinctValueCount(setElements);
    DuplicateWarningIff(setElements);
    warn := distinctCount < |setElements|;
  }

  /** Once the loop has thrown, later tokens do not matter. */
  lemma {:induction false} ScanFailureSticks(tokens: seq<string>, i: nat, setName: string)
    requires i <= |tokens|
    requires ScanTokens(tokens[..i], setName).Failure?
    ensures ScanTokens(tokens, setName) == ScanTokens(tokens[..i], setName)
    decreases |tokens| - i
  {
    if i < |tokens| {
      assert tokens[..i + 1][..i] == tokens[..i];
      ScanFailureSticks(tokens, i + 1, setName);
    } else {
      assert tokens[..i] == tokens;
    }
  }

  /**
   * The loop, stated without it: it succeeds exactly when every surviving token
   * is valid, with one element per survivor; otherwise its message names the
   * first survivor that is not.
   */
  lemma {:induction false} ScanTokensMeaning(tokens: seq<string>, setName: string)
    ensures var vals := TrimmedTokens(tokens);
      ScanTokens(tokens, setName) ==
        if AllValid(vals) then Success(ElementsOf(vals, setName))
        else Failure(InvalidElementMessage(vals[FirstInvalidIndex(vals)], setName))
    decreases |tokens|
  {
    if tokens != [] {
      var ts, t := tokens[..|tokens| - 1], tokens[|tokens| - 1];
      ScanTokensMeaning(ts, setName);
      var pv := TrimmedTokens(ts);
      var tr := Trim(t);
      var tail := if tr == "" then [] else [tr];
      assert TrimmedTokens(tokens) == pv + tail;
      if !AllValid(pv) {
        FirstInvalidIndexPrefix(pv, tail);
      } else if tr == "" {
        assert pv + tail == pv;
      } else if !IsValidElement(tr) {
        assert !AllValid(tail) && FirstInvalidIndex(tail) == 0;
        FirstInvalidIndexConcat(pv, tail);
      } else {
        ElementsOfSnoc(pv, tr, setName);
      }
    }
  }

  /** An invalid value keeps its place as the first invalid one when more values follow. */
  lemma {:induction false} FirstInvalidIndexPrefix(x: seq<string>, y: seq<string>)
    requires !AllValid(x)
    ensures !AllValid(x + y) && FirstInvalidIndex(x + y) == FirstInvalidIndex(x)
    decreases |x|
  {
    assert (x + y)[FirstInvalidIndex(x)] == x[FirstInvalidIndex(x)];
    if IsValidElement(x[0]) {
      assert (x + y)[1..] == x[1..] + y;
      FirstInvalidIndexPrefix(x[1..], y);
    }
  }

  /** Valid values in front of a list shift its first invalid index by their count. */
  lemma {:induction false} FirstInvalidIndexConcat(x: seq<string>, y: seq<string>)
    requires AllValid(x) && !AllValid(y)
    ensures !AllValid(x + y) && FirstInvalidIndex(x + y) == |x| + FirstInvalidIndex(y)
    decreases |x|
  {
    assert (x + y)[|x| + FirstInvalidIndex(y)] == y[FirstInvalidIndex(y)];
    if x != [] {
      assert (x + y)[1..] == x[1..] + y;
      FirstInvalidIndexConcat(x[1..], y);
    }
  }

  /**
   * parseSet, stated without its loop: the checks in the order the method makes
   * them, and on success one element per surviving token.
   */
  lemma ParseSetResultMeaning(input: string, setName: string)
    ensures var vals := TrimmedTokens(Tokens(input));
      ParseSetResult(Some(input), setName) ==
        if AllBlank(input) then Failure(EmptyInputMessage(setName))
        else if |Tokens(input)| == 0 then Failure(NoElementsMessage(setName))
        else if !AllValid(vals) then Failure(InvalidElementMessage(vals[FirstInvalidIndex(vals)], setName))
        else if vals == [] then Failure(NoValidElementsMessage(setName))
        else Success(ElementsOf(vals, setName))
  {
    TrimEmptyIff(input);
    ScanTokensMeaning(Tokens(input), setName);
  }

  /**
   * What a successful parse returns: at least one element, the surviving tokens
   * in their order as values, each non-empty, trimmed, valid and tagged with the
   * set's name.
   */
  lemma ParseSetSuccess(input: string, setName: string)
    requires ParseSetResult(Some(input), setName).Success?
    ensures var es := ParseSetResult(Some(input), setName).value;
      && |es| >= 1
      && Values(es) == TrimmedTokens(Tokens(input))
      && forall k :: 0 <= k < |es| ==>
        es[k].setName == setName && es[k].value != "" && IsTrimmed(es[k].value) && IsValidElement(es[k].value)
  {
    ParseSetResultMeaning(input, setName);
    var vals := TrimmedTokens(Tokens(input));
    ElementsOfTrimmed(vals, setName);
  }

  /**
   * A token that trims to a non-empty string outside the allowed class makes
   * parsing fail, and the message names the first such token of the line.
   */
  lemma ParseSetRejectsInvalidToken(input: string, setName: string, k: nat)
    requires var vals := TrimmedTokens(Tokens(input)); k < |vals| && !IsValidElement(vals[k])
    ensures var vals := TrimmedTokens(Tokens(input));
      && ParseSetResult(Some(input), setName) == Failure(InvalidElementMessage(vals[FirstInvalidIndex(vals)], setName))
      && FirstInvalidIndex(vals) <= k
  {
    BlankHasNoTokens(input);
    ParseSetResultMeaning(input, setName);
  }

  /** A blank line leaves no token standing. */
  lemma BlankHasNoTokens(input: string)
    ensures AllBlank(input) ==> TrimmedTokens(Tokens(input)) == []
  {
    if AllBlank(input) {
      TrimEmptyIff(input);
      assert RemoveSetNotation("") == "";
      assert Tokens(input) == [""];
      assert TrimmedTokens([""]) == [] by { assert |[""][..0]| == 0; }
    }
  }

  /** A line whose tokens are all blank (as in "{}" or " , ") fails with "contains no valid elements". */
  lemma ParseSetRejectsNoSurvivors(input: string, setName: string)
    requires !AllBlank(input)
    requires |Tokens(input)| > 0 && TrimmedTokens(Tokens(input)) == []
    ensures ParseSetResult(Some(input), setName) == Failure(NoValidElementsMessage(setName))
  {
    ParseSetResultMeaning(input, setName);
  }

  /** A line that is only commas once trimmed and unwrapped (as in ",,,") fails with "No elements found". */
  lemma ParseSetRejectsOnlyCommas(input: string, setName: string)
    requires !AllBlank(input)
    requires var c := RemoveSetNotation(Trim(input)); c != [] && forall k :: 0 <= k < |c| ==> c[k] == ','
    ensures ParseSetResult(Some(input), setName) == Failure(NoElementsMessage(setName))
  {
    ParseSetResultMeaning(input, setName);
    SplitEmptyIff(RemoveSetNotation(Trim(input)));
  }

  // ---------------------------------------------------------------------------
  // Duplicates
  // ---------------------------------------------------------------------------

  /** The distinct values of a list. */
  function ValueSet(es: seq<SetElement>): set<string>
  {
    if es == [] then {} else ValueSet(es[..|es| - 1]) + {es[|es| - 1].value}
  }

  /** ValueSet holds exactly the values of the list. */
  lemma {:induction false} ValueSetMembers(es: seq<SetElement>)
    ensures forall k :: 0 <= k < |es| ==> es[k].value in ValueSet(es)
    ensures forall v :: v in ValueSet(es) ==> exists k :: 0 <= k < |es| && es[k].value == v
    decreases |es|
  {
    if es != [] {
      ValueSetMembers(es[..|es| - 1]);
    }
  }

  /**
   * elements.stream().map(getValue).distinct().count(): one for each element
   * whose value has not been seen before it.
   */
  function DistinctValueCount(es: seq<SetElement>): nat
    decreases |es|
  {
    if es == [] then 0
    else
      var p := es[..|es| - 1];
      DistinctValueCount(p) + (if es[|es| - 1].value in ValueSet(p) then 0 else 1)
  }

  /** The distinct count is the number of different values. */
  lemma {:induction false} DistinctValueCountIsCardinality(es: seq<SetElement>)
    ensures DistinctValueCount(es) == |ValueSet(es)|
    decreases |es|
  {
    if es != [] {
      var p, v := es[..|es| - 1], es[|es| - 1].value;
      DistinctValueCountIsCardinality(p);
      assert ValueSet(es) == ValueSet(p) + {v};
      if v in ValueSet(p) {
        assert ValueSet(p) + {v} == ValueSet(p);
      }
    }
  }

  /** Some element repeats the value of an element before it, scanning from the end. */
  predicate HasDuplicates(es: seq<SetElement>)
    decreases |es|
  {
    es != [] && (HasDuplicates(es[..|es| - 1]) || es[|es| - 1].value in ValueSet(es[..|es| - 1]))
  }

  /** Some value occurs at two positions. */
  ghost predicate RepeatsValue(es: seq<SetElement>) {
    exists i, j :: 0 <= i < j < |es| && es[i].value == es[j].value
  }

  lemma HasDuplicatesSnoc(es: seq<SetElement>, x: SetElement)
    ensures HasDuplicates(es + [x]) <==> HasDuplicates(es) || x.value in ValueSet(es)
  {
    assert (es + [x])[..|es|] == es;
  }

  lemma RepeatsValueSnoc(es: seq<SetElement>, x: SetElement)
    ensures RepeatsValue(es + [x]) <==> RepeatsValue(es) || x.value in ValueSet(es)
  {
    var s := es + [x];
    ValueSetMembers(es);
    if x.value in ValueSet(es) {
      var k :| 0 <= k < |es| && es[k].value == x.value;
      assert s[k].value == s[|es|].value;
    }
    if RepeatsValue(es) {
      var i, j :| 0 <= i < j < |es| && es[i].value == es[j].value;
      assert s[i].value == s[j].value;
    }
    if RepeatsValue(s) {
      var i, j :| 0 <= i < j < |s| && s[i].value == s[j].value;
      if j < |es| {
        assert es[i].value == es[j].value;
      } else {
        assert es[i].value == x.value;
      }
    }
  }

  /** The scan finds a duplicate exactly when some value occurs twice. */
  lemma {:induction false} HasDuplicatesIff(es: seq<SetElement>)
    ensures HasDuplicates(es) <==> RepeatsValue(es)
    decreases |es|
  {
    if es != [] {
      var p, x := es[..|es| - 1], es[|es| - 1];
      assert es == p + [x];
      HasDuplicatesIff(p);
      HasDuplicatesSnoc(p, x);
      RepeatsValueSnoc(p, x);
    }
  }

  /** The distinct count falls below the size exactly when some value repeats. */
  lemma {:induction false} DuplicateWarningIff(es: seq<SetElement>)
    ensures DistinctValueCount(es) <= |es|
    ensures DistinctValueCount(es) < |es| <==> HasDuplicates(es)
    decreases |es|
  {
    if es != [] {
      var p, x := es[..|es| - 1], es[|es| - 1];
      assert es == p + [x];
      DuplicateWarningIff(p);
      HasDuplicatesSnoc(p, x);
    }
  }

  // ---------------------------------------------------------------------------
  // removeDuplicates
  // ---------------------------------------------------------------------------

  /** removeDuplicates: stream().distinct() by SetElement.equals, keeping the first of each value. */
  function RemoveDuplicates(es: seq<SetElement>): (r: seq<SetElement>)
    ensures ValueSet(r) == ValueSet(es)
  {
    if es == [] then []
    else
      var p := RemoveDuplicates(es[..|es| - 1]);
      var x := es[|es| - 1];
      if x.value in ValueSet(p) then p else p + [x]
  }

  /** Element i is the first one carrying its value. */
  predicate IsFirstOccurrence(es: seq<SetElement>, i: nat)
    requires i < |es|
  {
    forall j :: 0 <= j < i ==> es[j].value != es[i].value
  }

  /** removeDuplicates leaves no value twice. */
  lemma {:induction false} RemoveDuplicatesIsDistinct(es: seq<SetElement>)
    ensures !HasDuplicates(RemoveDuplicates(es))
    decreases |es|
  {
    if es != [] {
      var pre, x := es[..|es| - 1], es[|es| - 1];
      RemoveDuplicatesIsDistinct(pre);
      HasDuplicatesSnoc(RemoveDuplicates(pre), x);
    }
  }

  /** removeDuplicates only deletes elements: what is left keeps its order. */
  lemma {:induction false} RemoveDuplicatesIsSubsequence(es: seq<SetElement>)
    ensures Subseq(RemoveDuplicates(es), es)
    decreases |es|
  {
    if es != [] {
      var pre, x := es[..|es| - 1], es[|es| - 1];
      var p := RemoveDuplicates(pre);
      RemoveDuplicatesIsSubsequence(pre);
      assert es == pre + [x];
      if x.value in ValueSet(p) {
        SubseqSkip(p, pre, x);
      } else {
        SubseqKeep(p, pre, x);
      }
    } else {
      assert Subseq<SetElement>([], []);
    }
  }

  /**
   * removeDuplicates keeps the first occurrence of every value itself, set name
   * included. This says nothing about where it is kept; the order is fixed by
   * RemoveDuplicatesIsFirstOccurrences below.
   */
  lemma {:induction false} RemoveDuplicatesKeepsFirstOccurrences(es: seq<SetElement>)
    ensures forall i :: 0 <= i < |es| && IsFirstOccurrence(es, i) ==> es[i] in RemoveDuplicates(es)
    decreases |es|
  {
    if es != [] {
      var pre, x := es[..|es| - 1], es[|es| - 1];
      var p := RemoveDuplicates(pre);
      RemoveDuplicatesKeepsFirstOccurrences(pre);
      assert forall y :: y in p ==> y in RemoveDuplicates(es);
      forall i | 0 <= i < |pre| && IsFirstOccurrence(es, i) ensures es[i] in RemoveDuplicates(es) {
        assert IsFirstOccurrence(pre, i);
      }
      if IsFirstOccurrence(es, |pre|) {
        assert es[..|pre|] == pre;
        FirstOccurrenceIsUnseen(es, |pre|);
      }
    }
  }

  /** The first element with a value finds that value missing from the ones before it. */
  lemma FirstOccurrenceIsUnseen(es: seq<SetElement>, i: nat)
    requires i < |es| && IsFirstOccurrence(es, i)
    ensures es[i].value !in ValueSet(es[..i])
  {
    ValueSetMembers(es[..i]);
    assert forall k :: 0 <= k < i ==> es[..i][k].value != es[i].value;
  }

  /**
   * The reference for removeDuplicates, stated by position: the elements es[i]
   * that no earlier element matches by value, in increasing order of i.
   */
  function FirstOccurrences(es: seq<SetElement>): seq<SetElement>
    decreases |es|
  {
    if es == [] then []
    else FirstOccurrences(es[..|es| - 1]) + (if IsFirstOccurrence(es, |es| - 1) then [es[|es| - 1]] else [])
  }

  /** removeDuplicates returns exactly the first occurrences, in their original order. */
  lemma {:induction false} RemoveDuplicatesIsFirstOccurrences(es: seq<SetElement>)
    ensures RemoveDuplicates(es) == FirstOccurrences(es)
    decreases |es|
  {
    if es != [] {
      var pre, x := es[..|es| - 1], es[|es| - 1];
      RemoveDuplicatesIsFirstOccurrences(pre);
      ValueSetMembers(pre);
      assert es[..|pre|] == pre;
      if IsFirstOccurrence(es, |pre|) {
        FirstOccurrenceIsUnseen(es, |pre|);
      } else {
        var k :| 0 <= k < |pre| && es[k].value == x.value;
        assert pre[k].value == x.value;
      }
    }
  }

  /**
   * Order, stated by position: of two first occurrences i < j, the one at i
   * comes first in the result of removeDuplicates.
   */
  lemma FirstOccurrencesKeepOrder(es: seq<SetElement>, i: nat, j: nat)
    requires i < j < |es| && IsFirstOccurrence(es, i) && IsFirstOccurrence(es, j)
    ensures exists m, n :: 0 <= m < n < |RemoveDuplicates(es)| && RemoveDuplicates(es)[m] == es[i] && RemoveDuplicates(es)[n] == es[j]
  {
    RemoveDuplicatesIsFirstOccurrences(es);
    var m, n := FirstOccurrencesPositions(es, i, j);
  }

  lemma {:induction false} FirstOccurrencesPositions(es: seq<SetElement>, i: nat, j: nat) returns (m: nat, n: nat)
    requires i < j < |es| && IsFirstOccurrence(es, i) && IsFirstOccurrence(es, j)
    ensures m < n < |FirstOccurrences(es)| && FirstOccurrences(es)[m] == es[i] && FirstOccurrences(es)[n] == es[j]
    decreases |es|
  {
    var pre := es[..|es| - 1];
    assert es[..|pre|] == pre;
    if j < |pre| {
      assert IsFirstOccurrence(pre, i) && IsFirstOccurrence(pre, j);
      m, n := FirstOccurrencesPositions(pre, i, j);
    } else {
      assert IsFirstOccurrence(pre, i);
      m := FirstOccurrenceIndex(pre, i);
      n := |FirstOccurrences(pre)|;
    }
  }

  /** A first occurrence has a place in FirstOccurrences. */
  lemma {:induction false} FirstOccurrenceIndex(es: seq<SetElement>, i: nat) returns (m: nat)
    requires i < |es| && IsFirstOccurrence(es, i)
    ensures m < |FirstOccurrences(es)| && FirstOccurrences(es)[m] == es[i]
    decreases |es|
  {
    var pre := es[..|es| - 1];
    assert es[..|pre|] == pre;
    if i < |pre| {
      assert IsFirstOccurrence(pre, i);
      m := FirstOccurrenceIndex(pre, i);
    } else {
      m := |FirstOccurrences(pre)|;
    }
  }

  /** For the line `1,2,1` the result is the elements 1 then 2. */
  lemma RemoveDuplicatesExample(setName: string)
    ensures var one, two := SetElement("1", setName), SetElement("2", setName);
      RemoveDuplicates([one, two, one]) == [one, two]
  {
    var one, two := SetElement("1", setName), SetElement("2", setName);
    assert [one, two, one][..2] == [one, two];
    assert [one, two][..1] == [one];
    assert [one][..0] == [];
    assert RemoveDuplicates([one]) == [one];
    assert ValueSet([one]) == {"1"};
    assert RemoveDuplicates([one, two]) == [one, two];
    assert ValueSet([one, two]) == {"1", "2"};
  }

  /** A list without repeated values is its own de-duplication. */
  lemma {:induction false} RemoveDuplicatesOfDistinct(es: seq<SetElement>)
    requires !HasDuplicates(es)
    ensures RemoveDuplicates(es) == es
    decreases |es|
  {
    if es != [] {
      var pre, x := es[..|es| - 1], es[|es| - 1];
      assert es == pre + [x];
      HasDuplicatesSnoc(pre, x);
      RemoveDuplicatesOfDistinct(pre);
    }
  }

  /** removeDuplicates is idempotent. */
  lemma RemoveDuplicatesIdempotent(es: seq<SetElement>)
    ensures RemoveDuplicates(RemoveDuplicates(es)) == RemoveDuplicates(es)
  {
    RemoveDuplicatesIsDistinct(es);
    RemoveDuplicatesOfDistinct(RemoveDuplicates(es));
  }

  // ---------------------------------------------------------------------------
  // parseSetFromArray
  // ---------------------------------------------------------------------------

  /**
   * parseSetFromArray: fails only on a null or empty array; otherwise keeps the
   * trimmed non-blank entries, with no character-class check, so the list may be empty.
   */
  function ParseSetFromArray(elements: Option<seq<string>>, setName: string): (r: Result<seq<SetElement>>)
    ensures r.Failure? <==> elements.None? || |elements.value| == 0
    ensures r.Failure? ==> r.message == EmptyArrayMessage(setName)
    ensures r.Success? ==> Values(r.value) == TrimmedTokens(elements.value)
    ensures r.Success? ==> forall k :: 0 <= k < |r.value| ==> r.value[k].setName == setName
  {
    if elements.None? || |elements.value| == 0 then Failure(EmptyArrayMessage(setName))
    else
      var vals := TrimmedTokens(elements.value);
      ElementsOfTrimmed(vals, setName);
      Success(ElementsOf(vals, setName))
  }

  /**
   * The array path does not validate: a single trimmed entry outside the
   * character class (such as "#bad") is accepted here, while parseSet rejects
   * the same text.
   */
  lemma ParseSetFromArraySkipsValidation(v: string, setName: string)
    requires v != "" && IsTrimmed(v) && !IsValidElement(v)
    requires ',' !in v && v[0] != '{' && v[|v| - 1] != '}'
    ensures ParseSetFromArray(Some([v]), setName) == Success([SetElement(v, setName)])
    ensures ParseSetResult(Some(v), setName) == Failure(InvalidElementMessage(v, setName))
  {
    TrimTrimmed(v);
    assert TrimmedTokens([v]) == [v] by { assert |[v][..0]| == 0; }
    ElementsOfTrimmed([v], setName);
    assert ElementsOf([v], setName) == [SetElement(v, setName)];
    assert Tokens(v) == [v];
    assert !AllBlank(v) by { assert !IsBlank(v[0]); }
    ParseSetResultMeaning(v, setName);
    assert FirstInvalidIndex([v]) == 0;
  }

  /** The array path may succeed with an empty list, which parseSet never returns. */
  lemma ParseSetFromArrayMayBeEmpty(vs: seq<string>, setName: string)
    requires |vs| > 0 && forall k :: 0 <= k < |vs| ==> AllBlank(vs[k])
    ensures ParseSetFromArray(Some(vs), setName) == Success([])
  {
    BlankEntriesVanish(vs);
  }

  /** Entries that are blanks only leave no trimmed token. */
  lemma {:induction false} BlankEntriesVanish(vs: seq<string>)
    requires forall k :: 0 <= k < |vs| ==> AllBlank(vs[k])
    ensures TrimmedTokens(vs) == []
    decreases |vs|
  {
    if vs != [] {
      TrimEmptyIff(vs[|vs| - 1]);
      BlankEntriesVanish(vs[..|vs| - 1]);
    }
  }

  // ---------------------------------------------------------------------------
  // parseRange
  // ---------------------------------------------------------------------------

  /** The numeral of an integer passes parseSet's validation and is already trimmed. */
  lemma NumeralIsValid(i: int)
    ensures IsValidElement(IntToString(i)) && IsTrimmed(IntToString(i))
  {
    var s := IntToString(i);
    assert forall k :: 0 <= k < |s| ==> IsAllowedChar(s[k]);
  }

  /**
   * parseRange: the numerals of start..end inclusive, in increasing order;
   * throws when start > end.
   */
  method ParseRange(start: int, end: int, setName: string) returns (r: Result<seq<SetElement>>)
    ensures r.Failure? <==> start > end
    ensures r.Failure? ==> r.message == InvalidRangeMessage(setName)
    ensures r.Success? ==> |r.value| == end - start + 1
    ensures r.Success? ==> forall k :: 0 <= k < |r.value| ==> r.value[k] == SetElement(IntToString(start + k), setName)
    ensures r.Success? ==> forall k :: 0 <= k < |r.value| ==> IsValidElement(r.value[k].value)
    ensures r.Success? ==> !HasDuplicates(r.value)
  {
    if start > end {
      return Failure(InvalidRangeMessage(setName));
    }
    var elements: seq<SetElement> := [];
    var i := start;
    while i <= end
      invariant start <= i <= end + 1
      invariant |elements| == i - start
      invariant forall k :: 0 <= k < |elements| ==> elements[k] == SetElement(IntToString(start + k), setName)
      decreases end - i
    {
      NumeralIsValid(i);
      NewSetElementKeepsTrimmed(IntToString(i), setName);
      elements := elements + [NewSetElement(Some(IntToString(i)), setName)];
      i := i + 1;
    }
    forall k | 0 <= k < |elements| ensures IsValidElement(elements[k].value) {
      NumeralIsValid(start + k);
    }
    forall a, b | 0 <= a < b < |elements| ensures elements[a].value != elements[b].value {
      IntToStringInjective(start + a, start + b);
    }
    HasDuplicatesIff(elements);
    return Success(elements);
  }

  // ---------------------------------------------------------------------------
  // formatSet
  // ---------------------------------------------------------------------------

  /** formatSet: "∅" for a null or empty list, otherwise "{ v1, v2, ... }". */
  function FormatSet(elements: Option<seq<SetElement>>): (r: string)
    ensures r == "∅" <==> elements.None? || elements.value == []
    ensures elements.Some? && elements.value != [] ==> |r| >= 4 && r[..2] == "{ " && r[|r| - 2..] == " }"
  {
    if elements.None? || elements.value == [] then "∅"
    else "{ " + JoinWith(Values(elements.value), ", ") + " }"
  }

  lemma {:induction false} JoinedTrimmedValues(vals: seq<string>)
    requires |vals| >= 1
    requires forall k :: 0 <= k < |vals| ==> vals[k] != "" && IsTrimmed(vals[k])
    ensures var j := JoinWith(vals, ", "); j != [] && j[0] == vals[0][0] && j[|j| - 1] == vals[|vals| - 1][|vals[|vals| - 1]| - 1]
  {
    if |vals| > 1 {
      JoinedTrimmedValues(vals[1..]);
    }
  }

  /**
   * Round trip: parsing what formatSet prints gives back the same values in the
   * same order, for any non-empty list of valid, trimmed values.
   */
  lemma ParseFormatRoundTrip(es: seq<SetElement>, setName: string)
    requires |es| >= 1
    requires forall k :: 0 <= k < |es| ==> IsValidElement(es[k].value) && IsTrimmed(es[k].value)
    ensures ParseSetResult(Some(FormatSet(Some(es))), setName) == Success(ElementsOf(Values(es), setName))
    ensures Values(ElementsOf(Values(es), setName)) == Values(es)
  {
    var vals := Values(es);
    var s := FormatSet(Some(es));
    FormattedLineUnwraps(vals);
    TokensOfJoined(vals);
    assert Tokens(s) == Split(JoinWith(vals, ", "));
    ParseSetResultMeaning(s, setName);
    ElementsOfTrimmed(vals, setName);
  }

  /** The line formatSet prints is not blank, and trimming and removing set notation leave the joined values. */
  lemma FormattedLineUnwraps(vals: seq<string>)
    requires |vals| >= 1
    requires forall k :: 0 <= k < |vals| ==> vals[k] != "" && IsTrimmed(vals[k])
    ensures var s := "{ " + JoinWith(vals, ", ") + " }";
      !AllBlank(s) && RemoveSetNotation(Trim(s)) == JoinWith(vals, ", ")
  {
    JoinedTrimmedValues(vals);
    BracedLineUnwraps(JoinWith(vals, ", "));
  }

  /** "{ " + j + " }" is not blank and unwraps to j, for any trimmed j. */
  lemma BracedLineUnwraps(j: string)
    requires IsTrimmed(j)
    ensures var s := "{ " + j + " }";
      !AllBlank(s) && RemoveSetNotation(Trim(s)) == j
  {
    var x := " " + j + " ";
    var s := "{ " + j + " }";
    assert s == "{" + x + "}" by {
      ConcatRegroup("{", " ", j, " ", "}");
    }
    assert IsTrimmed(s) && !AllBlank(s) by {
      assert s[0] == '{' && s[|s| - 1] == '}';
    }
    assert Trim(s) == s by { TrimTrimmed(s); }
    assert RemoveSetNotation(s) == Trim(x) by { RemoveSetNotationUnwraps(x); }
    assert Trim(x) == j by {
      assert AllBlank(" ");
      TrimPadded(" ", j, " ");
    }
  }

  /** Concatenation is associative: the braces and spaces regrouped around j. */
  lemma ConcatRegroup(a: string, b: string, j: string, c: string, d: string)
    ensures (a + b) + j + (c + d) == a + (b + j + c) + d
  {
  }

  /** Splitting valid values joined with ", " and trimming the pieces gives the values back. */
  lemma TokensOfJoined(vals: seq<string>)
    requires |vals| >= 1
    requires forall k :: 0 <= k < |vals| ==> IsValidElement(vals[k]) && IsTrimmed(vals[k])
    ensures |Split(JoinWith(vals, ", "))| > 0
    ensures TrimmedTokens(Split(JoinWith(vals, ", "))) == vals
  {
    var j := JoinWith(vals, ", ");
    forall k | 0 <= k < |vals| ensures ',' !in vals[k] {
      ValidElementHasNoDelimiter(vals[k]);
    }
    SplitAllJoinedWithCommaSpace(vals);
    var ps := SplitAll(j);
    forall k | 0 <= k < |ps| ensures Trim(ps[k]) == vals[k] {
      if k == 0 {
        TrimTrimmed(vals[0]);
      } else {
        TrimPadded(" ", vals[k], "");
        assert " " + vals[k] + "" == " " + vals[k];
      }
    }
    TrimmedTokensAllSurvive(ps);
    TrimmedTokensOfSplit(j);
    assert |TrimmedTokens(Split(j))| > 0;
  }
}
