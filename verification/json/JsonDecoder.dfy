// py_scanstring, JSONObject, JSONArray, _scan_once and JSONDecoder.decode as loops over an
// index, with their short cuts for common whitespace. Reading past the end, which
// raises IndexError in the program, is a test of the index here.
module JsonDecoder {
  import opened JsonText
  import opened JsonParse
  import opened JsonLayout
  import opened JsonConverse
  import opened JsonErrors

  // Characters STRINGCHUNK stops at.
  predicate Special(c: CodePoint) {
    c == QUOTE || c == BACKSLASH || c < 0x20
  }

  // The end of the match of STRINGCHUNK's content, None when there is no terminator.
  method NextSpecial(s: Text, i: nat) returns (r: Option<nat>)
    requires i <= |s|
    ensures r.Some? ==> i <= r.value < |s| && Special(s[r.value])
    ensures forall k :: i <= k < (if r.Some? then r.value else |s|) ==> !Special(s[k])
  {
    var j := i;
    while j < |s| && !Special(s[j])
      invariant i <= j <= |s|
      invariant forall k :: i <= k < j ==> !Special(s[k])
    {
      j := j + 1;
    }
    r := if j < |s| then Some(j) else None;
  }

  lemma {:induction false} ScanContent(s: Text, i: nat, j: nat, begin: nat, strict: bool, acc: Text)
    requires i <= j <= |s| && forall k :: i <= k < j ==> !Special(s[k])
    ensures ScanString(s, i, begin, strict, acc) == ScanString(s, j, begin, strict, acc + s[i..j])
    decreases j - i
  {
    if i == j {
      assert acc + s[i..j] == acc;
    } else {
      ScanContent(s, i + 1, j, begin, strict, acc + [s[i]]);
      assert acc + [s[i]] + s[i + 1..j] == acc + s[i..j];
    }
  }

  // The part of the loop that handles a backslash; end is behind it.
  method PyEscape(s: Text, start: nat, begin: nat) returns (r: Result<CodePoint>)
    requires 0 < start
    ensures r == Escape(s, start, begin)
  {
    var end := start;
    if end >= |s| {
      return Error(UnterminatedString, begin);
    }
    if s[end] != SMALL_U {
      var plain := Unescaped(s[end]);
      return if plain.Some? then Ok(plain.value, end + 1) else Error(InvalidEscape, end);
    }
    var uni := HexAt(s, end + 1);
    if uni.None? {
      return Error(InvalidUnicodeEscape, end - 1);
    }
    end := end + 5;
    if IsHighSurrogate(uni.value) && CharAt(s, end, BACKSLASH) && CharAt(s, end + 1, SMALL_U) {
      if TriesHex(s, end + 2) {
        var uni2 := HexAt(s, end + 2);
        if uni2.None? {
          return Error(InvalidUnicodeEscape, end);
        }
        if IsLowSurrogate(uni2.value) {
          return Ok(Join(uni.value, uni2.value), end + 6);
        }
      }
    }
    r := Ok(uni.value, end);
  }

  /** A string whose first character stands at `start`; chunks are joined as they come. */
  method PyScanString(s: Text, start: nat, strict: bool) returns (r: Result<Text>)
    requires 0 < start <= |s|
    ensures r == ScanString(s, start, start - 1, strict, [])
  {
    hide Escape;
    var begin := start - 1;
    var end: nat := start;
    var chunks: Text := [];
    while true
      invariant start <= end <= |s|
      invariant ScanString(s, start, begin, strict, []) == ScanString(s, end, begin, strict, chunks)
      decreases |s| - end
    {
      var chunk := NextSpecial(s, end);
      ScanContent(s, end, if chunk.Some? then chunk.value else |s|, begin, strict, chunks);
      if chunk.None? {
        return Error(UnterminatedString, begin);
      }
      var terminator := s[chunk.value];
      chunks := chunks + s[end..chunk.value];
      end := chunk.value + 1;
      if terminator == QUOTE {
        return Ok(chunks, end);
      } else if terminator != BACKSLASH {
        if strict {
          return Error(InvalidControlCharacter, end);
        }
        chunks := chunks + [terminator];
        continue;
      }
      var escaped := PyEscape(s, end, begin);
      if escaped.Error? {
        return Error(escaped.message, escaped.pos);
      }
      end := escaped.end;
      chunks := chunks + [escaped.value];
    }
    assert false;
  }

  // A word can stand only where its first character does.
  lemma WordsByFirst(s: Text, i: nat)
    requires i < |s|
    ensures At(s, i, NULL_WORD) ==> s[i] == NULL_WORD[0]
    ensures At(s, i, TRUE_WORD) ==> s[i] == TRUE_WORD[0]
    ensures At(s, i, FALSE_WORD) ==> s[i] == FALSE_WORD[0]
    ensures At(s, i, NAN_WORD) ==> s[i] == NAN_WORD[0]
    ensures At(s, i, INFINITY_WORD) ==> s[i] == INFINITY_WORD[0]
    ensures At(s, i, [MINUS] + INFINITY_WORD) ==> s[i] == MINUS
  {
    FirstThere(s, i, NULL_WORD);
    FirstThere(s, i, TRUE_WORD);
    FirstThere(s, i, FALSE_WORD);
    FirstThere(s, i, NAN_WORD);
    FirstThere(s, i, INFINITY_WORD);
    FirstThere(s, i, [MINUS] + INFINITY_WORD);
  }

  lemma FirstThere(s: Text, i: nat, word: Text)
    requires word != [] && i < |s|
    ensures At(s, i, word) ==> s[i] == word[0]
  {
    if At(s, i, word) {
      AtIndex(s, i, word, 0);
    }
  }

  method ScanOnce(s: Text, idx: nat, strict: bool) returns (r: Result<Json>)
    ensures r == ParseValue(s, idx, strict)
    decreases |s| - idx, 1
  {
    hide ParseArray, ParseObject, ScanString, Number, At;
    if idx >= |s| {
      return Error(ExpectingValue, idx);
    }
    var nextchar := s[idx];
    WordsByFirst(s, idx);
    if nextchar == QUOTE {
      var text := PyScanString(s, idx + 1, strict);
      return match text
        case Ok(t, end) => Ok(Str(t), end)
        case Error(m, pos) => Error(m, pos);
    } else if nextchar == OPEN_BRACE {
      r := JSONObject(s, idx + 1, strict);
      return;
    } else if nextchar == OPEN_BRACKET {
      r := JSONArray(s, idx + 1, strict);
      return;
    } else if nextchar == NULL_WORD[0] && At(s, idx, NULL_WORD) {
      return Ok(Null, idx + 4);
    } else if nextchar == TRUE_WORD[0] && At(s, idx, TRUE_WORD) {
      return Ok(Bool(true), idx + 4);
    } else if nextchar == FALSE_WORD[0] && At(s, idx, FALSE_WORD) {
      return Ok(Bool(false), idx + 5);
    }
    var m := Number(s, idx);
    if m.Some? {
      return m.value;
    } else if nextchar == NAN_WORD[0] && At(s, idx, NAN_WORD) {
      return Ok(NaN, idx + 3);
    } else if nextchar == INFINITY_WORD[0] && At(s, idx, INFINITY_WORD) {
      return Ok(Infinity(false), idx + 8);
    } else if nextchar == MINUS && At(s, idx, [MINUS] + INFINITY_WORD) {
      return Ok(Infinity(true), idx + 9);
    }
    r := Error(ExpectingValue, idx);
  }

  // s[end:end + 1] in _ws, which holds for the empty slice as well.
  predicate BlankSlice(s: Text, end: nat) {
    end >= |s| || IsWhitespace(s[end])
  }

  // The short cuts, which the program has written out at each place. Whitespace is mostly
  // absent or one character, so the regular expression is not tried at once.
  method SkipOne(s: Text, end: nat) returns (e: nat)
    requires end <= |s|
    ensures e == Skip(s, end)
  {
    e := end;
    if BlankSlice(s, e) {
      e := Skip(s, e + 1);
    }
  }

  method SkipTwo(s: Text, end: nat) returns (e: nat)
    requires end <= |s|
    ensures e == Skip(s, end)
  {
    e := end;
    if e < |s| && IsWhitespace(s[e]) {
      e := e + 1;
      if e < |s| && IsWhitespace(s[e]) {
        e := Skip(s, e + 1);
      }
    }
  }

  method JSONArray(s: Text, start: nat, strict: bool) returns (r: Result<Json>)
    requires 0 < start <= |s|
    ensures r == ParseArray(s, start, strict)
    decreases |s| - start, 3
  {
    hide ParseElements;
    var end: nat := start;
    end := SkipOne(s, end);
    if CharAt(s, end, CLOSE_BRACKET) {
      return Ok(List([]), end + 1);
    } else if end >= |s| {
      return Error(ExpectingValueOrBracket, end);
    }
    r := JSONElements(s, end, strict);
  }

  lemma ElementsStep(s: Text, i: nat, strict: bool, values: seq<Json>)
    requires i <= |s|
    ensures
      var r, value := ParseElements(s, i, strict, values), ParseValue(s, i, strict);
      if value.Error? then r == Error(value.message, value.pos)
      else
        var more, e := values + [value.value], Skip(s, value.end);
        if CharAt(s, e, CLOSE_BRACKET) then r == Ok(List(more), e + 1)
        else if CharAt(s, e, COMMA) then r == ParseElements(s, Skip(s, e + 1), strict, more)
        else r == Error(ExpectingCommaOrBracket, e)
  {
    hide ParseValue, Skip;
  }

  // The loop over the elements.
  method JSONElements(s: Text, start: nat, strict: bool) returns (r: Result<Json>)
    requires 0 < start <= |s|
    ensures r == ParseElements(s, start, strict, [])
    decreases |s| - start, 2
  {
    hide ParseElements, ParseValue, Skip;
    var end: nat := start;
    var values: seq<Json> := [];
    ghost var meant := ParseElements(s, end, strict, []);
    while true
      invariant start <= end <= |s|
      invariant meant == ParseElements(s, end, strict, values)
      decreases |s| - end
    {
      ElementsStep(s, end, strict, values);
      var value := ScanOnce(s, end, strict);
      if value.Error? {
        return value;
      }
      values := values + [value.value];
      end := SkipOne(s, value.end);
      if CharAt(s, end, CLOSE_BRACKET) {
        return Ok(List(values), end + 1);
      } else if !CharAt(s, end, COMMA) {
        return Error(ExpectingCommaOrBracket, end);
      }
      end := SkipTwo(s, end + 1);
    }
    assert false;
  }

  method JSONObject(s: Text, start: nat, strict: bool) returns (r: Result<Json>)
    requires 0 < start <= |s|
    ensures r == ParseObject(s, start, strict)
    decreases |s| - start, 3
  {
    hide ParseMembers;
    var end: nat := start;
    if !CharAt(s, end, QUOTE) {
      if BlankSlice(s, end) {
        end := Skip(s, end);
      }
      if CharAt(s, end, CLOSE_BRACE) {
        return Ok(Dict([]), end + 1);
      } else if !CharAt(s, end, QUOTE) {
        return Error(ExpectingPropertyName, end);
      }
    }
    r := JSONMembers(s, end + 1, strict);
  }

  method JSONName(s: Text, start: nat, strict: bool) returns (r: Result<Text>)
    requires 0 < start <= |s|
    ensures r == ParseName(s, start, strict)
  {
    r := PyScanString(s, start, strict);
    if r.Error? {
      return;
    }
    var end := r.end;
    if !CharAt(s, end, COLON) {
      end := Skip(s, end);
      if !CharAt(s, end, COLON) {
        return Error(ExpectingColon, end);
      }
    }
    end := SkipTwo(s, end + 1);
    r := Ok(r.value, end);
  }

  lemma MembersStep(s: Text, i: nat, strict: bool, pairs: seq<(Text, Json)>)
    requires 0 < i <= |s|
    ensures
      var r, name := ParseMembers(s, i, strict, pairs), ParseName(s, i, strict);
      if name.Error? then r == Error(name.message, name.pos)
      else
        var value := ParseValue(s, name.end, strict);
        if value.Error? then r == Error(value.message, value.pos)
        else
          var more, e := pairs + [(name.value, value.value)], Skip(s, value.end);
          if CharAt(s, e, CLOSE_BRACE) then r == Ok(Dict(DictOf(more)), e + 1)
          else if !CharAt(s, e, COMMA) then r == Error(ExpectingCommaOrBrace, e)
          else
            var q := Skip(s, e + 1);
            r == if CharAt(s, q, QUOTE) then ParseMembers(s, q + 1, strict, more) else Error(ExpectingPropertyName, q)
  {
    hide ParseValue, ParseName, Skip, DictOf, ScanString;
    var name := ParseName(s, i, strict);
    if name.Ok? && ParseValue(s, name.end, strict).Ok? {
      var e := Skip(s, ParseValue(s, name.end, strict).end);
      if CharAt(s, e, COMMA) && CharAt(s, Skip(s, e + 1), QUOTE) {
      }
    }
  }

  // The loop over the members; the first name starts at `start`.
  method JSONMembers(s: Text, start: nat, strict: bool) returns (r: Result<Json>)
    requires 0 < start <= |s|
    ensures r == ParseMembers(s, start, strict, [])
    decreases |s| - start, 2
  {
    hide ParseMembers, ParseValue, ParseName, Skip, DictOf;
    var end: nat := start;
    var pairs: seq<(Text, Json)> := [];
    ghost var meant := ParseMembers(s, end, strict, []);
    while true
      invariant start <= end <= |s|
      invariant meant == ParseMembers(s, end, strict, pairs)
      decreases |s| - end
    {
      MembersStep(s, end, strict, pairs);
      var name := JSONName(s, end, strict);
      if name.Error? {
        return Error(name.message, name.pos);
      }
      var value := ScanOnce(s, name.end, strict);
      if value.Error? {
        return value;
      }
      pairs := pairs + [(name.value, value.value)];
      end := SkipOne(s, value.end);
      if CharAt(s, end, CLOSE_BRACE) {
        return Ok(Dict(DictOf(pairs)), end + 1);
      } else if !CharAt(s, end, COMMA) {
        return Error(ExpectingCommaOrBrace, end);
      }
      end := SkipTwo(s, end + 1);
      if !CharAt(s, end, QUOTE) {
        return Error(ExpectingPropertyName, end);
      }
      end := end + 1;
    }
    assert false;
  }

  method RawDecode(s: Text, idx: nat, strict: bool) returns (r: Result<Json>)
    ensures r == ParseValue(s, Skip(s, idx), strict)
  {
    r := ScanOnce(s, Skip(s, idx), strict);
  }

  /** JSONDecoder.decode: on every text the fast paths give what the simple form gives,
      value or error and place. It is a value exactly when the text is a document, and otherwise
      the error is true. */
  method DecodeText(s: Text, strict: bool) returns (r: Result<Json>)
    ensures r == Decode(s, strict)
    ensures r.Ok? <==> exists before, l, after :: Document(s, before, l, after, strict)
    ensures forall before, l, after :: Document(s, before, l, after, strict) ==> r == Ok(ValueOf(l), |s|)
    ensures r.Error? ==> ErrorTrue(s, r.message, r.pos, strict)
  {
    hide ParseValue, Document, ErrorTrue, ValueOf;
    DecodesIff(s, Null, strict);
    if Decode(s, strict).Error? {
      DecodeErrorTrue(s, strict);
    }
    r := RawDecode(s, 0, strict);
    if r.Ok? {
      var end := Skip(s, r.end);
      if end != |s| {
        return Error(ExtraData, end);
      }
      r := Ok(r.value, end);
    }
  }
}
