/**
 * The stored form of the monitored item list: one value of the `.env`
 * store, under the key `MABINOGI_ITEMS`, holding the names joined by commas.
 * `GetItems` parses it (split on commas, strip whitespace, drop empty
 * pieces) and `SaveItems` writes a list back with `",".join`.
 */
module ItemCodec {

  /** The `.env` key under which the item names are stored. */
  const ItemsKey: string := "MABINOGI_ITEMS"

  /**
   * Python's `str.isspace` for one character (what `str.strip()` removes):
   * the ASCII blanks and line breaks count, the comma between names does not.
   */
  function IsSpace(c: char): (space: bool)
    ensures c == ' ' || c == '\t' || c == '\n' || c == '\r' ==> space
    ensures space ==> c != ','
  {
    var n := c as int;
    || n == 0x20
    || 0x09 <= n <= 0x0D
    || 0x1C <= n <= 0x1F
    || n == 0x85 || n == 0xA0 || n == 0x1680
    || 0x2000 <= n <= 0x200A
    || n == 0x2028 || n == 0x2029 || n == 0x202F || n == 0x205F || n == 0x3000
  }

  predicate AllSpace(s: string) {
    forall i :: 0 <= i < |s| ==> IsSpace(s[i])
  }

  /** Neither end of `s` is whitespace: `s.strip() == s`. */
  predicate IsStripped(s: string) {
    s == [] || (!IsSpace(s[0]) && !IsSpace(s[|s| - 1]))
  }

  /** A name that survives a save and a reload unchanged. */
  predicate IsName(s: string) {
    s != [] && IsStripped(s) && ',' !in s
  }

  /** Every entry is a well-formed name. */
  predicate AllNames(items: seq<string>) {
    forall k :: 0 <= k < |items| ==> IsName(items[k])
  }

  /** How many whitespace characters `s` starts with. */
  function LeadingSpace(s: string): (n: nat)
    ensures n <= |s|
    ensures forall i :: 0 <= i < n ==> IsSpace(s[i])
    ensures n == |s| || !IsSpace(s[n])
  {
    if s != [] && IsSpace(s[0]) then 1 + LeadingSpace(s[1..]) else 0
  }

  /** Where the trailing whitespace of `s` begins. */
  function TrailingSpace(s: string): (n: nat)
    ensures n <= |s|
    ensures forall i :: n <= i < |s| ==> IsSpace(s[i])
    ensures n == 0 || !IsSpace(s[n - 1])
  {
    if s != [] && IsSpace(s[|s| - 1]) then TrailingSpace(s[..|s| - 1]) else |s|
  }

  /**
   * `s.strip()`: whitespace at neither end, and a string with no whitespace
   * at its ends is its own strip. `StripInfix` says what was cut off.
   */
  function Strip(s: string): (r: string)
    ensures IsStripped(r)
    ensures IsStripped(s) ==> r == s
  {
    var start := LeadingSpace(s);
    if start == |s| then [] else s[start..TrailingSpace(s)]
  }

  /** `s.strip()` is the infix of `s` between whitespace-only ends. */
  lemma StripInfix(s: string)
    ensures exists i :: 0 <= i <= |s| - |Strip(s)| && Strip(s) == s[i..i + |Strip(s)|]
                        && AllSpace(s[..i]) && AllSpace(s[i + |Strip(s)|..])
  {
    var i := LeadingSpace(s);
    var r := Strip(s);
    assert AllSpace(s[..i]) by {
      forall k | 0 <= k < i ensures IsSpace(s[..i][k]) {
        assert s[..i][k] == s[k];
      }
    }
    if i < |s| {
      var j := TrailingSpace(s);
      assert i < j && r == s[i..j];
      assert AllSpace(s[j..]) by {
        forall k | 0 <= k < |s| - j ensures IsSpace(s[j..][k]) {
          assert s[j..][k] == s[j + k];
        }
      }
    }
  }

  /** The number of characters in all of `items` together. */
  function TotalLength(items: seq<string>): nat {
    if items == [] then 0 else |items[0]| + TotalLength(items[1..])
  }

  /**
   * `",".join(items)`: as long as the names together plus one comma between
   * each pair of neighbours (`SplitJoin` recovers the names themselves).
   */
  function Join(items: seq<string>): (joined: string)
    ensures items != [] ==> |joined| == TotalLength(items) + |items| - 1
  {
    if items == [] then ""
    else if |items| == 1 then items[0]
    else items[0] + "," + Join(items[1..])
  }

  /**
   * `s.split(",")`: the pieces between commas, at least one, none holding a
   * comma; joining them with commas gives `s` back.
   */
  function Split(s: string): (pieces: seq<string>)
    ensures |pieces| >= 1
    ensures forall k :: 0 <= k < |pieces| ==> ',' !in pieces[k]
    ensures Join(pieces) == s
  {
    if s == [] then [[]]
    else
      var rest := Split(s[1..]);
      if s[0] == ',' then
        assert ([[]] + rest)[1..] == rest;
        [[]] + rest
      else
        var pieces := [[s[0]] + rest[0]] + rest[1..];
        assert pieces[1..] == rest[1..];
        assert s == [s[0]] + s[1..];
        pieces
  }

  /** `[p.strip() for p in pieces if p.strip()]`. */
  function ParsePieces(pieces: seq<string>): (names: seq<string>)
    ensures |names| <= |pieces|
  {
    if pieces == [] then []
    else
      var name := Strip(pieces[0]);
      (if name != [] then [name] else []) + ParsePieces(pieces[1..])
  }

  /** The list comprehension of `get_items` applied to the raw stored value. */
  function Parse(raw: string): (names: seq<string>)
    ensures AllNames(names)
  {
    ParsePiecesNames(Split(raw));
    ParsePieces(Split(raw))
  }

  /**
   * `get_items`: the names stored under `MABINOGI_ITEMS`; an absent key
   * reads as the empty value.
   */
  function GetItems(env: map<string, string>): (items: seq<string>)
    ensures AllNames(items)
    ensures ItemsKey !in env || env[ItemsKey] == "" ==> items == []
  {
    Parse(if ItemsKey in env then env[ItemsKey] else "")
  }

  /**
   * `save_items`: `MABINOGI_ITEMS` now holds the joined names; every other
   * key of the store keeps its value.
   */
  function SaveItems(env: map<string, string>, items: seq<string>): (env': map<string, string>)
    ensures env'.Keys == env.Keys + {ItemsKey}
    ensures env'[ItemsKey] == Join(items)
    ensures forall key :: key in env && key != ItemsKey ==> env'[key] == env[key]
  {
    env[ItemsKey := Join(items)]
  }

  // ---- Splitting and parsing -------------------------------------------

  /** A comma splits the text into the pieces on its left and on its right. */
  lemma {:induction false} SplitAtComma(a: string, b: string)
    ensures Split(a + "," + b) == Split(a) + Split(b)
    decreases |a|
  {
    if a == [] {
      assert a + "," + b == [','] + b;
      assert ([','] + b)[1..] == b;
    } else {
      var s := a + "," + b;
      assert s[0] == a[0] && s[1..] == a[1..] + "," + b;
      SplitAtComma(a[1..], b);
    }
  }

  /** Text without a comma is one piece. */
  lemma {:induction false} SplitNoComma(a: string)
    requires ',' !in a
    ensures Split(a) == [a]
    decreases |a|
  {
    if a != [] {
      assert ',' !in a[1..] by {
        forall k | 0 <= k < |a[1..]| ensures a[1..][k] != ',' { assert a[1..][k] == a[k + 1]; }
      }
      SplitNoComma(a[1..]);
      assert a == [a[0]] + a[1..];
    }
  }

  /** Splitting a comma-join of comma-free pieces gives the pieces back. */
  lemma {:induction false} SplitJoin(pieces: seq<string>)
    requires |pieces| >= 1
    requires forall k :: 0 <= k < |pieces| ==> ',' !in pieces[k]
    ensures Split(Join(pieces)) == pieces
    decreases |pieces|
  {
    if |pieces| == 1 {
      SplitNoComma(pieces[0]);
    } else {
      SplitNoComma(pieces[0]);
      SplitJoin(pieces[1..]);
      SplitAtComma(pieces[0], Join(pieces[1..]));
      assert pieces == [pieces[0]] + pieces[1..];
    }
  }

  /** Stripping keeps a comma-free string comma-free. */
  lemma StripNoComma(s: string)
    requires ',' !in s
    ensures ',' !in Strip(s)
  {
    var start := LeadingSpace(s);
    if start < |s| {
      var r := Strip(s);
      forall j | 0 <= j < |r|
        ensures r[j] != ','
      {
        assert r[j] == s[start + j];
      }
    }
  }

  /**
   * The names kept from comma-free pieces are well-formed: non-empty,
   * stripped and comma-free.
   */
  lemma {:induction false} ParsePiecesNames(pieces: seq<string>)
    requires forall k :: 0 <= k < |pieces| ==> ',' !in pieces[k]
    ensures AllNames(ParsePieces(pieces))
    decreases |pieces|
  {
    if pieces != [] {
      var name := Strip(pieces[0]);
      var head := if name != [] then [name] else [];
      var rest := ParsePieces(pieces[1..]);
      assert forall k :: 0 <= k < |pieces[1..]| ==> ',' !in pieces[1..][k] by {
        forall k | 0 <= k < |pieces[1..]| ensures ',' !in pieces[1..][k] {
          assert pieces[1..][k] == pieces[k + 1];
        }
      }
      ParsePiecesNames(pieces[1..]);
      StripNoComma(pieces[0]);
      assert ParsePieces(pieces) == head + rest;
      forall k | 0 <= k < |head + rest|
        ensures IsName((head + rest)[k])
      {
        if k >= |head| {
          assert (head + rest)[k] == rest[k - |head|];
        }
      }
    }
  }

  lemma {:induction false} ParsePiecesAppend(p: seq<string>, q: seq<string>)
    ensures ParsePieces(p + q) == ParsePieces(p) + ParsePieces(q)
    decreases |p|
  {
    if p == [] {
      assert p + q == q;
    } else {
      var pq := p + q;
      var head := if Strip(p[0]) != [] then [Strip(p[0])] else [];
      assert pq[0] == p[0];
      assert pq[1..] == p[1..] + q;
      var rest, tail, both := ParsePieces(p[1..]), ParsePieces(q), ParsePieces(p[1..] + q);
      assert ParsePieces(pq) == head + both;
      assert ParsePieces(p) == head + rest;
      ParsePiecesAppend(p[1..], q);
      AppendAssoc(head, rest, tail);
    }
  }

  /**
   * Regrouping a concatenation, kept apart so that `ParsePiecesAppend` need
   * not prove it inline, where it is costly.
   */
  lemma AppendAssoc<T>(a: seq<T>, b: seq<T>, c: seq<T>)
    ensures a + (b + c) == (a + b) + c
  {
  }

  /**
   * Parsing keeps the original order: the names found left of a comma come
   * before those found right of it.
   */
  lemma ParseAtComma(a: string, b: string)
    ensures Parse(a + "," + b) == Parse(a) + Parse(b)
  {
    SplitAtComma(a, b);
    ParsePiecesAppend(Split(a), Split(b));
  }

  /**
   * A stretch without commas parses to its stripped text, or to nothing when
   * that is empty (so whitespace-only pieces are dropped).
   */
  lemma ParseNoComma(a: string)
    requires ',' !in a
    ensures Parse(a) == if Strip(a) == [] then [] else [Strip(a)]
  {
    SplitNoComma(a);
  }

  lemma {:induction false} ParsePiecesOfNames(names: seq<string>)
    requires AllNames(names)
    ensures ParsePieces(names) == names
    decreases |names|
  {
    if names != [] {
      ParsePiecesOfNames(names[1..]);
      assert names == [names[0]] + names[1..];
    }
  }

  /** Round trip: parsing the comma-join of well-formed names gives them back. */
  lemma ParseJoin(names: seq<string>)
    requires AllNames(names)
    ensures Parse(Join(names)) == names
  {
    if names != [] {
      SplitJoin(names);
      ParsePiecesOfNames(names);
    }
  }

  lemma AllNamesAppend(names: seq<string>, name: string)
    requires AllNames(names)
    requires IsName(name)
    ensures AllNames(names + [name])
  {
    var all := names + [name];
    forall k | 0 <= k < |all|
      ensures IsName(all[k])
    {
      if k < |names| {
        assert all[k] == names[k];
      }
    }
  }

  /** Saving well-formed names and reading the store back yields the same list. */
  lemma SaveThenGet(env: map<string, string>, names: seq<string>)
    requires AllNames(names)
    ensures GetItems(SaveItems(env, names)) == names
  {
    ParseJoin(names);
  }

  /**
   * A name holding a comma between two well-formed names is stored as is but
   * comes back from the store as those two names.
   */
  lemma CommaNameSplitsOnReload(a: string, b: string)
    requires IsName(a) && IsName(b)
    ensures Join([a + "," + b]) == a + "," + b
    ensures Parse(Join([a + "," + b])) == [a] + [b]
  {
    var joined := a + "," + b;
    assert Join([joined]) == joined;
    ParseNoComma(a);
    assert Parse(a) == [a];
    ParseNoComma(b);
    assert Parse(b) == [b];
    ParseAtComma(a, b);
    assert Parse(joined) == Parse(a) + Parse(b);
    assert Parse(a) + Parse(b) == [a] + [b];
  }
}
