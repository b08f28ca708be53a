/**
  Repair of raw line breaks inside JSON strings
  (`escapeLiteralStringNewlines` in src/service/native-plugin-list.ts; strings as
  in section 7 of RFC 8259).
 */
module NewlineRepair {
  import opened Prelude

  /** What the scanner knows between two characters. */
  datatype Scan = Scan(inString: bool, escaped: bool)

  const START := Scan(false, false)

  predicate IsBreak(c: char) {
    c == '\n' || c == '\r'
  }

  predicate IsRawBreak(state: Scan, c: char) {
    state.inString && IsBreak(c)
  }

  /** One character; a raw break in a string leaves the state alone. */
  function After(state: Scan, c: char): Scan {
    if IsRawBreak(state, c) then state
    else if state.escaped then state.(escaped := false)
    else if c == '\\' then state.(escaped := true)
    else if c == '"' then state.(inString := !state.inString)
    else state
  }

  function ScanAll(text: string, state: Scan): Scan {
    if text == "" then state else ScanAll(text[1..], After(state, text[0]))
  }

  /** How many characters the scanner takes at once: a CR LF in a string is one break. */
  function UnitLength(text: string, state: Scan): (n: nat)
    requires text != ""
    ensures 1 <= n <= |text|
  {
    if IsRawBreak(state, text[0]) && text[0] == '\r' && |text| > 1 && text[1] == '\n' then 2 else 1
  }

  /** What is written for the characters taken. */
  function Written(c: char, state: Scan): string {
    if IsRawBreak(state, c) then "\\n" else [c]
  }

  function Repair(text: string, state: Scan): string
    decreases |text|
  {
    if text == "" then ""
    else Written(text[0], state) + Repair(text[UnitLength(text, state)..], After(state, text[0]))
  }

  lemma RepairFrom(raw: string, index: nat, state: Scan)
    requires index < |raw|
    ensures
      var taken := if IsRawBreak(state, raw[index]) && raw[index] == '\r' && index + 1 < |raw| && raw[index + 1] == '\n'
                   then 2 else 1;
      Repair(raw[index..], state) == Written(raw[index], state) + Repair(raw[index + taken..], After(state, raw[index]))
  {
    var rest := raw[index..];
    assert rest[UnitLength(rest, state)..] == raw[index + UnitLength(rest, state)..];
  }

  lemma Regroup(left: string, middle: string, right: string)
    ensures left + (middle + right) == left + middle + right
  {
  }

  method EscapeLiteralStringNewlines(raw: string) returns (result: string)
    ensures result == Repair(raw, START)
  {
    var inString, escaped := false, false;
    result := "";
    var index := 0;
    assert raw[0..] == raw;
    while index < |raw|
      invariant 0 <= index <= |raw|
      invariant Repair(raw, START) == result + Repair(raw[index..], Scan(inString, escaped))
    {
      var character := raw[index];
      ghost var before, state, at := result, Scan(inString, escaped), index;
      if inString && (character == '\n' || character == '\r') {
        if character == '\r' && index + 1 < |raw| && raw[index + 1] == '\n' {
          index := index + 1;
        }
        result := result + "\\n";
      } else {
        result := result + [character];
        if escaped {
          escaped := false;
        } else if character == '\\' {
          escaped := true;
        } else if character == '"' {
          inString := !inString;
        }
      }
      index := index + 1;
      assert result == before + Written(raw[at], state) && Scan(inString, escaped) == After(state, raw[at]);
      assert Repair(raw, START) == result + Repair(raw[index..], Scan(inString, escaped)) by {
        RepairFrom(raw, at, state);
        Regroup(before, Written(raw[at], state), Repair(raw[index..], Scan(inString, escaped)));
      }
    }
  }

  /** No raw line break lies inside a string. */
  predicate NoRawBreaks(text: string, state: Scan) {
    text == "" || (!IsRawBreak(state, text[0]) && NoRawBreaks(text[1..], After(state, text[0])))
  }

  /** No raw line break in a string directly follows a backslash that still waits for its character. */
  predicate NoEscapedBreaks(text: string, state: Scan) {
    text == ""
    || (!(IsRawBreak(state, text[0]) && state.escaped) && NoEscapedBreaks(text[1..], After(state, text[0])))
  }

  lemma {:induction false} RepairKeepsLength(text: string, state: Scan)
    ensures |Repair(text, state)| >= |text|
    ensures Repair(text, state) == text ==> NoRawBreaks(text, state)
    decreases |text|
  {
    if text != "" {
      var n := UnitLength(text, state);
      var rest := Repair(text[n..], After(state, text[0]));
      RepairKeepsLength(text[n..], After(state, text[0]));
      var repaired := Repair(text, state);
      if IsRawBreak(state, text[0]) {
        assert repaired[0] == '\\' != text[0];
      } else {
        assert repaired[1..] == rest;
      }
    }
  }

  lemma {:induction false} CleanTextIsKept(text: string, state: Scan)
    requires NoRawBreaks(text, state)
    ensures Repair(text, state) == text
  {
    if text != "" {
      CleanTextIsKept(text[1..], After(state, text[0]));
    }
  }

  /** The repair returns its input exactly when no raw line break lies in a string. */
  lemma UnchangedExactlyWhenClean(raw: string)
    ensures Repair(raw, START) == raw <==> NoRawBreaks(raw, START)
  {
    RepairKeepsLength(raw, START);
    if NoRawBreaks(raw, START) {
      CleanTextIsKept(raw, START);
    }
  }

  lemma {:induction false} ScanAppends(left: string, right: string, state: Scan)
    ensures ScanAll(left + right, state) == ScanAll(right, ScanAll(left, state))
    ensures NoRawBreaks(left + right, state) <==> NoRawBreaks(left, state) && NoRawBreaks(right, ScanAll(left, state))
  {
    if left == "" {
      assert left + right == right;
    } else {
      assert (left + right)[1..] == left[1..] + right;
      ScanAppends(left[1..], right, After(state, left[0]));
    }
  }

  /** Scanning what was written for a unit has the effect of the unit, unless a break was escaped. */
  lemma WrittenScansAlike(c: char, state: Scan)
    ensures NoRawBreaks(Written(c, state), state)
    ensures ScanAll(Written(c, state), state) == After(state, c) <==> !(IsRawBreak(state, c) && state.escaped)
  {
    var written := Written(c, state);
    if IsRawBreak(state, c) {
      var middle := After(state, '\\');
      assert written[1..] == "n" && "n"[1..] == "";
      assert ScanAll(written, state) == ScanAll("n", middle) == After(middle, 'n');
    } else {
      assert written[1..] == "";
    }
  }

  lemma UnitScansAsItsFirst(text: string, state: Scan)
    requires text != ""
    ensures
      var n := UnitLength(text, state);
      && ScanAll(text, state) == ScanAll(text[n..], After(state, text[0]))
      && (NoEscapedBreaks(text, state) ==> NoEscapedBreaks(text[n..], After(state, text[0])))
  {
    if UnitLength(text, state) == 2 {
      assert text[1..][1..] == text[2..];
    }
  }

  /**
    Without escaped raw breaks, scanning the repaired text ends in the same state as scanning
    the input, meets no raw break, and a second repair changes nothing.
   */
  lemma {:induction false} RepairIsFaithful(text: string, state: Scan)
    requires NoEscapedBreaks(text, state)
    ensures ScanAll(Repair(text, state), state) == ScanAll(text, state)
    ensures NoRawBreaks(Repair(text, state), state)
    ensures Repair(Repair(text, state), state) == Repair(text, state)
    decreases |text|
  {
    if text != "" {
      var n := UnitLength(text, state);
      UnitScansAsItsFirst(text, state);
      RepairIsFaithful(text[n..], After(state, text[0]));
      WrittenScansAlike(text[0], state);
      ScanAppends(Written(text[0], state), Repair(text[n..], After(state, text[0])), state);
    }
    CleanTextIsKept(Repair(text, state), state);
  }

  /** At every cut of the input, scanning the repair of the part before it gives the scanner's own state. */
  ghost predicate InLockStep(text: string, state: Scan) {
    forall cut :: 0 <= cut <= |text| ==> ScanAll(Repair(text[..cut], state), state) == ScanAll(text[..cut], state)
  }

  lemma {:induction false} EscapedBreaksOfPrefixes(text: string, state: Scan, cut: nat)
    requires cut <= |text| && NoEscapedBreaks(text, state)
    ensures NoEscapedBreaks(text[..cut], state)
  {
    if cut > 0 {
      assert text[..cut][1..] == text[1..][..cut - 1];
      EscapedBreaksOfPrefixes(text[1..], After(state, text[0]), cut - 1);
    }
  }

  /** The first escaped break, as a cut right before it. */
  lemma {:induction false} FirstEscapedBreak(text: string, state: Scan) returns (cut: nat)
    requires !NoEscapedBreaks(text, state)
    ensures cut < |text| && NoEscapedBreaks(text[..cut], state)
    ensures var at := ScanAll(text[..cut], state); IsRawBreak(at, text[cut]) && at.escaped
  {
    if IsRawBreak(state, text[0]) && state.escaped {
      cut := 0;
    } else {
      var later := FirstEscapedBreak(text[1..], After(state, text[0]));
      cut := later + 1;
      assert text[..cut][1..] == text[1..][..later];
    }
  }

  lemma {:induction false} RepairAppendsChar(text: string, c: char, state: Scan)
    requires text == "" || !(text[|text| - 1] == '\r' && c == '\n')
    ensures Repair(text + [c], state) == Repair(text, state) + Written(c, ScanAll(text, state))
    decreases |text|
  {
    if text == "" {
      assert (text + [c])[1..] == "";
    } else {
      var n := UnitLength(text, state);
      var longer := text + [c];
      assert UnitLength(longer, state) == n;
      assert longer[n..] == text[n..] + [c];
      UnitScansAsItsFirst(text, state);
      RepairAppendsChar(text[n..], c, After(state, text[0]));
    }
  }

  /**
    The exact condition: input and repaired text scan in lock step if and only if no raw line
    break in a string directly follows an unpaired backslash.
   */
  lemma LockStepExactly(raw: string)
    ensures InLockStep(raw, START) <==> NoEscapedBreaks(raw, START)
  {
    if NoEscapedBreaks(raw, START) {
      forall cut | 0 <= cut <= |raw|
        ensures ScanAll(Repair(raw[..cut], START), START) == ScanAll(raw[..cut], START)
      {
        EscapedBreaksOfPrefixes(raw, START, cut);
        RepairIsFaithful(raw[..cut], START);
      }
    } else {
      var cut := FirstEscapedBreak(raw, START);
      var before, c := raw[..cut], raw[cut];
      assert raw[..cut + 1] == before + [c];
      LastIsNoBreak(before, START);
      RepairAppendsChar(before, c, START);
      RepairIsFaithful(before, START);
      var at := ScanAll(before, START);
      WrittenScansAlike(c, at);
      ScanAppends(Repair(before, START), Written(c, at), START);
      ScanAppends(before, [c], START);
      assert [c][1..] == "";
      assert ScanAll(Repair(raw[..cut + 1], START), START) != ScanAll(raw[..cut + 1], START);
    }
  }

  /** A pending backslash is the last thing seen: no break stands right before. */
  lemma {:induction false} LastIsNoBreak(text: string, state: Scan)
    requires !state.escaped && NoEscapedBreaks(text, state) && ScanAll(text, state).escaped
    ensures text != "" && text[|text| - 1] == '\\'
    decreases |text|
  {
    if text != "" {
      var front, last := text[..|text| - 1], text[|text| - 1];
      assert text == front + [last];
      ScanAppends(front, [last], state);
      assert [last][1..] == "";
      if last != '\\' {
        LastWasEscaped(front, last, state);
      }
    }
  }

  lemma LastWasEscaped(front: string, last: char, state: Scan)
    requires NoEscapedBreaks(front + [last], state) && last != '\\'
    ensures !After(ScanAll(front, state), last).escaped
    decreases |front|
  {
    if front == "" {
      assert (front + [last])[0] == last;
    } else {
      assert (front + [last])[1..] == front[1..] + [last];
      LastWasEscaped(front[1..], last, After(state, front[0]));
    }
  }

  // Projections: what the repair does to characters outside and breaks inside strings.

  /** The characters outside strings; a closing quote counts as inside. */
  function Outside(text: string, state: Scan): string {
    if text == "" then ""
    else (if state.inString then "" else [text[0]]) + Outside(text[1..], After(state, text[0]))
  }

  /** How many raw breaks lie in strings, a CR LF counting once. */
  function CountBreaks(text: string, state: Scan): nat
    decreases |text|
  {
    if text == "" then 0
    else (if IsRawBreak(state, text[0]) then 1 else 0) + CountBreaks(text[UnitLength(text, state)..], After(state, text[0]))
  }

  /** How many CR LF pairs lie in strings. */
  function CountPairs(text: string, state: Scan): nat
    decreases |text|
  {
    if text == "" then 0
    else
      var n := UnitLength(text, state);
      (if n == 2 then 1 else 0) + CountPairs(text[n..], After(state, text[0]))
  }

  lemma {:induction false} OutsideAppends(left: string, right: string, state: Scan)
    ensures Outside(left + right, state) == Outside(left, state) + Outside(right, ScanAll(left, state))
  {
    if left == "" {
      assert left + right == right;
    } else {
      assert (left + right)[1..] == left[1..] + right;
      OutsideAppends(left[1..], right, After(state, left[0]));
    }
  }

  /** Nothing outside strings changes, and each break becomes exactly one two-character escape. */
  lemma {:induction false} RepairTouchesBreaksOnly(text: string, state: Scan)
    requires NoEscapedBreaks(text, state)
    ensures Outside(Repair(text, state), state) == Outside(text, state)
    ensures |Repair(text, state)| == |text| + CountBreaks(text, state) - CountPairs(text, state)
    decreases |text|
  {
    if text != "" {
      var n := UnitLength(text, state);
      var written, next := Written(text[0], state), After(state, text[0]);
      UnitScansAsItsFirst(text, state);
      RepairTouchesBreaksOnly(text[n..], next);
      WrittenScansAlike(text[0], state);
      OutsideAppends(written, Repair(text[n..], next), state);
      if IsRawBreak(state, text[0]) {
        assert written[1..] == "n" && "n"[1..] == "";
        assert Outside(written, state) == "";
        if n == 2 {
          assert text[1..][1..] == text[2..];
        }
      } else {
        assert written[1..] == "";
      }
    }
  }

  /** A stretch of the input and what becomes of it. */
  datatype Piece = Piece(source: string, written: string)

  function Sources(pieces: seq<Piece>): string {
    if pieces == [] then "" else pieces[0].source + Sources(pieces[1..])
  }

  function Writtens(pieces: seq<Piece>): string {
    if pieces == [] then "" else pieces[0].written + Writtens(pieces[1..])
  }

  /** In a string each CR LF, each other CR and each other LF is written as one escape; any other character stays. */
  predicate BreaksEscapedOnce(pieces: seq<Piece>, state: Scan)
    decreases |pieces|
  {
    if pieces == [] then true
    else
      var piece, rest := pieces[0], pieces[1..];
      && (if state.inString && piece.source in ["\r\n", "\r", "\n"] then
            piece.written == "\\n" && (piece.source == "\r" ==> !("\n" <= Sources(rest)))
          else |piece.source| == 1 && piece.written == piece.source)
      && BreaksEscapedOnce(rest, ScanAll(piece.source, state))
  }

  /** What the scanner takes at once, as a piece. */
  lemma UnitIsPiece(text: string, state: Scan)
    requires text != ""
    ensures
      var n := UnitLength(text, state);
      var source := text[..n];
      && source + text[n..] == text && ScanAll(source, state) == After(state, text[0])
      && (if state.inString && source in ["\r\n", "\r", "\n"] then
            Written(text[0], state) == "\\n" && (source == "\r" ==> !("\n" <= text[n..]))
          else |source| == 1 && Written(text[0], state) == source)
  {
    var n := UnitLength(text, state);
    var source := text[..n];
    if n == 2 {
      assert source == "\r\n" && source[1..] == "\n" && "\n"[1..] == "";
      assert ScanAll("\n", state) == ScanAll("", state);
    } else {
      assert source == [text[0]] && source[1..] == "";
      assert ScanAll("", After(state, text[0])) == After(state, text[0]);
      if |text| > 1 {
        assert text[1..][0] == text[1];
      }
    }
  }

  /** Every input is a sequence of such pieces, and the repair is what they are written as. */
  lemma {:induction false} RepairPieces(text: string, state: Scan) returns (pieces: seq<Piece>)
    ensures Sources(pieces) == text && Writtens(pieces) == Repair(text, state)
    ensures BreaksEscapedOnce(pieces, state)
    decreases |text|
  {
    if text == "" {
      pieces := [];
    } else {
      var n, next := UnitLength(text, state), After(state, text[0]);
      UnitIsPiece(text, state);
      var rest := RepairPieces(text[n..], next);
      hide After, Written, UnitLength, ScanAll;
      pieces := [Piece(text[..n], Written(text[0], state))] + rest;
      assert pieces[1..] == rest;
    }
  }

  /** After the repair of a raw break behind a backslash. */
  lemma RepairOfEscapedBreak()
    ensures Repair("\"\\\n\"", START) == "\"\\\\n\""
  {
    var raw := "\"\\\n\"";
    var within, pending := Scan(true, false), Scan(true, true);
    assert raw[1..] == "\\\n\"" && raw[1..][1..] == "\n\"" && raw[1..][1..][1..] == "\"" && "\""[1..] == "";
    assert Repair("\"", pending) == "\"";
    assert Repair("\n\"", pending) == "\\n\"";
    assert Repair("\\\n\"", within) == "\\\\n\"";
  }

  /** An escaped break can close a string early: the quote after it ends up escaped in the input only. */
  lemma EscapedBreakDiverges()
    ensures
      var raw := "\"\\\n\"";
      ScanAll(raw, START).inString && !ScanAll(Repair(raw, START), START).inString
  {
    RepairOfEscapedBreak();
    hide Repair;
    var raw := "\"\\\n\"";
    var within, pending := Scan(true, false), Scan(true, true);
    assert raw[1..] == "\\\n\"" && raw[1..][1..] == "\n\"" && raw[1..][1..][1..] == "\"" && "\""[1..] == "";
    var repaired := "\"\\\\n\"";
    assert repaired[1..] == "\\\\n\"" && "\\\\n\""[1..] == "\\n\"" && "\\n\""[1..] == "n\"" && "n\""[1..] == "\"";
    assert ScanAll(raw[1..], within) == ScanAll("\n\"", pending) == ScanAll("\"", pending) == ScanAll("", within);
    assert ScanAll("\\\\n\"", within) == ScanAll("\\n\"", pending) == ScanAll("n\"", within) == ScanAll("\"", within) == ScanAll("", START);
  }
}
