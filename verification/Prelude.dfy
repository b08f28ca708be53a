/** Small value types and string helpers that several components share. */
module Prelude {

  datatype Option<+T> = None | Some(value: T)

  datatype Result<+T, +E> = Ok(value: T) | Err(error: E)

  /** A JSON value; `JSON.stringify` comparisons are structural equality on it. */
  datatype Json =
    | Null
    | Bool(flag: bool)
    | Number(number: real)
    | Text(text: string)
    | Array(items: seq<Json>)
    | Object(fields: map<string, Json>)

  function Max(a: int, b: int): int {
    if a < b then b else a
  }

  function Min(a: int, b: int): int {
    if a < b then a else b
  }

  /** `first ?? second`. */
  function OrElse<T>(first: Option<T>, second: Option<T>): Option<T> {
    if first.Some? then first else second
  }

  lemma NonemptyHasMember<T>(s: seq<T>)
    ensures s == [] || exists x :: x in s
  {
    if s != [] {
      assert s[0] in s;
    }
  }

  /** `[...new Set(items)]`: each item once, at its first place. */
  function Distinct<T(==, !new)>(items: seq<T>): (distinct: seq<T>)
    ensures forall item :: item in distinct <==> item in items
    ensures NoRepeats(distinct)
  {
    if items == [] then []
    else
      var front, last := items[..|items| - 1], items[|items| - 1];
      assert forall item :: item in items <==> item in front || item == last;
      if last in front then Distinct(front) else Distinct(front) + [last]
  }

  predicate NoRepeats<T(==)>(items: seq<T>) {
    forall i, j :: 0 <= i < j < |items| ==> items[i] != items[j]
  }

  /** Where nothing repeats, nothing is removed. */
  lemma {:induction false} DistinctKeeps<T(!new)>(items: seq<T>)
    requires NoRepeats(items)
    ensures Distinct(items) == items
  {
    if items != [] {
      var front, last := items[..|items| - 1], items[|items| - 1];
      DistinctKeeps(front);
      assert last !in front && items == front + [last];
    }
  }

  /** Repetitions can be removed early or late. */
  lemma {:induction false} DistinctAbsorbs<T(!new)>(left: seq<T>, right: seq<T>)
    ensures Distinct(Distinct(left) + right) == Distinct(left + right) == Distinct(left + Distinct(right))
  {
    if right == [] {
      assert left + right == left && Distinct(left) + right == Distinct(left);
      DistinctKeeps(Distinct(left));
    } else {
      var front, last := right[..|right| - 1], right[|right| - 1];
      DistinctAbsorbs(left, front);
      DistinctOfAppended(left, front, last);
      DistinctOfAppended(Distinct(left), front, last);
      assert right == front + [last];
      if last in front {
        assert Distinct(right) == Distinct(front);
      } else {
        assert Distinct(right) == Distinct(front) + [last];
        DistinctOfAppended(left, Distinct(front), last);
      }
    }
  }

  lemma DistinctOfAppended<T(!new)>(left: seq<T>, front: seq<T>, last: T)
    ensures Distinct(left + (front + [last]))
      == if last in left || last in front then Distinct(left + front) else Distinct(left + front) + [last]
  {
    var items := left + (front + [last]);
    assert items[..|items| - 1] == left + front;
  }

  /** The white space that `String.prototype.trim` removes. */
  predicate IsSpace(c: char) {
    || c == ' ' || '\t' <= c <= '\r' || c == '\U{00A0}' || c == '\U{FEFF}' || c == '\U{1680}'
    || '\U{2000}' <= c <= '\U{200A}' || c == '\U{2028}' || c == '\U{2029}' || c == '\U{202F}'
    || c == '\U{205F}' || c == '\U{3000}'
  }

  /** The white space and line terminators of ECMAScript, sections 12.2 and 12.3 of ECMA-262, one by one. */
  const SPACES := [
    '\t', '\n', '\U{000B}', '\U{000C}', '\r', ' ', '\U{00A0}', '\U{1680}', '\U{2000}', '\U{2001}', '\U{2002}',
    '\U{2003}', '\U{2004}', '\U{2005}', '\U{2006}', '\U{2007}', '\U{2008}', '\U{2009}', '\U{200A}', '\U{2028}',
    '\U{2029}', '\U{202F}', '\U{205F}', '\U{3000}', '\U{FEFF}']

  lemma SpacesExactly(c: char)
    ensures IsSpace(c) <==> c in SPACES
  {
    if '\t' <= c <= '\r' { assert SPACES[c as int - 9] == c; }
    if '\U{2000}' <= c <= '\U{200A}' { assert SPACES[c as int - 0x2000 + 8] == c; }
    assert SPACES[5] == ' ' && SPACES[6] == '\U{00A0}' && SPACES[7] == '\U{1680}' && SPACES[19] == '\U{2028}'
      && SPACES[20] == '\U{2029}' && SPACES[21] == '\U{202F}' && SPACES[22] == '\U{205F}' && SPACES[23] == '\U{3000}'
      && SPACES[24] == '\U{FEFF}';
  }

  function TrimStart(s: string): (r: string)
    ensures |r| <= |s|
    ensures r != [] ==> !IsSpace(r[0])
  {
    if s == [] || !IsSpace(s[0]) then s else TrimStart(s[1..])
  }

  function TrimEnd(s: string): (r: string)
    ensures |r| <= |s|
    ensures r != [] ==> !IsSpace(r[|r| - 1])
  {
    if s == [] || !IsSpace(s[|s| - 1]) then s else TrimEnd(s[..|s| - 1])
  }

  lemma {:induction false} TrimStartIsSuffix(s: string)
    ensures TrimStart(s) == s[|s| - |TrimStart(s)|..]
  {
    if s != "" && IsSpace(s[0]) {
      TrimStartIsSuffix(s[1..]);
    }
  }

  lemma {:induction false} TrimEndIsPrefix(s: string)
    ensures TrimEnd(s) <= s
  {
    if s != "" && IsSpace(s[|s| - 1]) {
      TrimEndIsPrefix(s[..|s| - 1]);
    }
  }

  function Trim(s: string): (r: string)
    ensures r != [] ==> !IsSpace(r[0]) && !IsSpace(r[|r| - 1])
  {
    TrimEndIsPrefix(TrimStart(s));
    TrimEnd(TrimStart(s))
  }

  /** `!text.trim()`. */
  predicate IsBlank(text: string) {
    forall i :: 0 <= i < |text| ==> IsSpace(text[i])
  }

  lemma {:induction false} TrimStartOfBlank(s: string)
    ensures IsBlank(s) <==> TrimStart(s) == ""
  {
    hide IsSpace;
    if s != "" && IsSpace(s[0]) {
      TrimStartOfBlank(s[1..]);
      assert forall i :: 0 < i < |s| ==> s[i] == s[1..][i - 1];
      assert forall i :: 0 <= i < |s| - 1 ==> s[1..][i] == s[i + 1];
    }
  }

  /** Exactly the blank strings trim to nothing. */
  lemma BlankTrimsToNothing(s: string)
    ensures IsBlank(s) <==> Trim(s) == ""
  {
    TrimStartOfBlank(s);
    var r := TrimStart(s);
    if r != "" {
      FirstCharStays(r);
    }
  }

  lemma {:induction false} FirstCharStays(s: string)
    requires s != "" && !IsSpace(s[0])
    ensures TrimEnd(s) != ""
  {
    if IsSpace(s[|s| - 1]) {
      FirstCharStays(s[..|s| - 1]);
    }
  }

  lemma BlankAppends(left: string, right: string)
    requires IsBlank(left) && IsBlank(right)
    ensures IsBlank(left + right)
  {
    hide IsSpace;
  }

  lemma {:induction false} StartSplits(s: string) returns (front: string)
    ensures s == front + TrimStart(s) && IsBlank(front)
  {
    hide IsBlank, IsSpace;
    if s != "" && IsSpace(s[0]) {
      var rest := StartSplits(s[1..]);
      front := [s[0]] + rest;
      OneBlank(s[0]);
      BlankAppends([s[0]], rest);
      Regrouped([s[0]], rest, TrimStart(s[1..]));
      assert s == [s[0]] + s[1..];
    } else {
      front := "";
      NothingIsBlank();
    }
  }

  lemma {:induction false} EndSplits(s: string) returns (back: string)
    ensures s == TrimEnd(s) + back && IsBlank(back)
  {
    hide IsBlank, IsSpace;
    if s != "" && IsSpace(s[|s| - 1]) {
      var front, last := s[..|s| - 1], s[|s| - 1];
      var rest := EndSplits(front);
      back := rest + [last];
      OneBlank(last);
      BlankAppends(rest, [last]);
      Regrouped(TrimEnd(front), rest, [last]);
      assert s == front + [last];
    } else {
      back := "";
      NothingIsBlank();
    }
  }

  lemma OneBlank(c: char)
    requires IsSpace(c)
    ensures IsBlank([c])
  {
  }

  lemma NothingIsBlank()
    ensures IsBlank("")
  {
  }

  lemma Regrouped(a: string, b: string, c: string)
    ensures (a + b) + c == a + (b + c)
  {
  }

  /** Trimming cuts off white space at both ends and nothing else. */
  lemma TrimExactly(s: string)
    ensures exists front, back :: s == front + Trim(s) + back && IsBlank(front) && IsBlank(back)
  {
    hide IsBlank, IsSpace, TrimStart, TrimEnd;
    var front := StartSplits(s);
    var back := EndSplits(TrimStart(s));
    Regrouped(front, Trim(s), back);
  }

  /** Trimming is a projection: a trimmed string is not changed again. */
  lemma {:induction false} TrimIsIdempotent(s: string)
    ensures Trim(Trim(s)) == Trim(s)
  {
    var r := Trim(s);
    assert TrimStart(r) == r;
  }

  lemma {:induction false} LeastExists(keys: set<nat>)
    requires keys != {}
    ensures exists least :: least in keys && forall key :: key in keys ==> least <= key
  {
    var first :| first in keys;
    var others := keys - {first};
    assert keys == others + {first};
    if others != {} {
      LeastExists(others);
      var least :| least in others && forall key :: key in others ==> least <= key;
      assert Min(least, first) in keys && forall key :: key in keys ==> Min(least, first) <= key;
    }
  }

  function Least(keys: set<nat>): (least: nat)
    requires keys != {}
    ensures least in keys && forall key :: key in keys ==> least <= key
  {
    LeastExists(keys);
    var least :| least in keys && forall key :: key in keys ==> least <= key;
    least
  }

  /** The keys in ascending order. */
  function Ascending(keys: set<nat>): (sorted: seq<nat>)
    ensures forall key :: key in sorted <==> key in keys
    ensures forall i, j :: 0 <= i < j < |sorted| ==> sorted[i] < sorted[j]
  {
    if keys == {} then []
    else
      var least := Least(keys);
      var others := keys - {least};
      assert forall key :: key in keys <==> key == least || key in others;
      [least] + Ascending(others)
  }
}
