/**
 * The part of Ruby's JSON library the AMI relaunch recipe relies on: `to_json`
 * of an array of strings and of a string-to-string hash (compact output, no
 * spaces), and `JSON.parse` of the same two shapes. The recipe stores the
 * security-group list and the instance tags this way, and `run_spot` parses
 * them back, so the round trips below are what lets an image alone describe
 * its instance.
 */
module Json {
  import opened Common

  /** One character inside a JSON string literal. */
  function EscapeChar(c: char): string
  {
    if c == '"' || c == '\\' then ['\\', c] else [c]
  }

  function Escape(s: string): string
  {
    if s == [] then [] else EscapeChar(s[0]) + Escape(s[1..])
  }

  /** A JSON string literal: `"` + escaped text + `"`. */
  function Quote(s: string): string
  {
    ['"'] + Escape(s) + ['"']
  }

  /** `xs.to_json` without its brackets: quoted items joined by `,`. */
  function ArrayItems(xs: seq<string>): string
  {
    if xs == [] then []
    else if |xs| == 1 then Quote(xs[0])
    else Quote(xs[0]) + [','] + ArrayItems(xs[1..])
  }

  /** `xs.to_json` for an array of strings. */
  function ArrayJson(xs: seq<string>): string
  {
    ['['] + ArrayItems(xs) + [']']
  }

  function MemberJson(k: string, v: string): string
  {
    Quote(k) + [':'] + Quote(v)
  }

  function ObjectItems(ps: seq<(string, string)>): string
  {
    if ps == [] then []
    else if |ps| == 1 then MemberJson(ps[0].0, ps[0].1)
    else MemberJson(ps[0].0, ps[0].1) + [','] + ObjectItems(ps[1..])
  }

  /** `h.to_json` for a hash of strings, given as its pairs in the hash's order. */
  function ObjectJson(ps: seq<(string, string)>): string
  {
    ['{'] + ObjectItems(ps) + ['}']
  }

  // ---------------------------------------------------------------------
  // JSON.parse, for the escapes the generator above writes
  // ---------------------------------------------------------------------

  /** Puts `c` in front of the text a parse read. */
  function Prepend(c: char, r: Option<(string, string)>): Option<(string, string)>
  {
    if r.Some? then Some(([c] + r.value.0, r.value.1)) else None
  }

  /** Reads string content up to the closing quote; gives the text and what follows the quote. */
  function ParseChars(s: string): (r: Option<(string, string)>)
    ensures r.Some? ==> |r.value.1| < |s|
    decreases |s|
  {
    if s == [] then None
    else if s[0] == '"' then Some(([], s[1..]))
    else if s[0] == '\\' then
      if |s| >= 2 && (s[1] == '"' || s[1] == '\\') then Prepend(s[1], ParseChars(s[2..])) else None
    else Prepend(s[0], ParseChars(s[1..]))
  }

  function ParseString(s: string): (r: Option<(string, string)>)
    ensures r.Some? ==> |r.value.1| < |s|
  {
    if s != [] && s[0] == '"' then ParseChars(s[1..]) else None
  }

  /** Puts `x` in front of the items a parse read. */
  function PrependItem<T>(x: T, r: Option<(seq<T>, string)>): Option<(seq<T>, string)>
  {
    if r.Some? then Some(([x] + r.value.0, r.value.1)) else None
  }

  /** What follows one item: `]` ends the list, `,` continues it. */
  function ItemsAfter(x: string, rest: string): (r: Option<(seq<string>, string)>)
    ensures r.Some? ==> |r.value.1| < |rest|
    decreases |rest|, 0
  {
    if rest != [] && rest[0] == ']' then Some(([x], rest[1..]))
    else if rest != [] && rest[0] == ',' then PrependItem(x, ParseItems(rest[1..]))
    else None
  }

  /** One or more string literals separated by `,` and closed by `]`. */
  function ParseItems(s: string): (r: Option<(seq<string>, string)>)
    ensures r.Some? ==> |r.value.1| < |s|
    decreases |s|, 1
  {
    var x := ParseString(s);
    if x.Some? then ItemsAfter(x.value.0, x.value.1) else None
  }

  /** `JSON.parse(s)` where `s` should hold an array of strings; None outside the compact form `to_json` writes. */
  function ParseArray(s: string): Option<seq<string>>
  {
    if |s| >= 2 && s[0] == '[' && s[1] == ']' then (if |s| == 2 then Some([]) else None)
    else if s != [] && s[0] == '[' then
      match ParseItems(s[1..])
      case Some((xs, rest)) => if rest == [] then Some(xs) else None
      case None => None
    else None
  }

  /** One `"key":"value"` member. */
  function ParseMember(s: string): (r: Option<((string, string), string)>)
    ensures r.Some? ==> |r.value.1| < |s|
  {
    match ParseString(s)
    case None => None
    case Some((k, rest)) =>
      if rest == [] || rest[0] != ':' then None
      else
        match ParseString(rest[1..])
        case None => None
        case Some((v, rest')) => Some(((k, v), rest'))
  }

  /** What follows one member: `}` ends the object, `,` continues it. */
  function MembersAfter(p: (string, string), rest: string): (r: Option<(seq<(string, string)>, string)>)
    ensures r.Some? ==> |r.value.1| < |rest|
    decreases |rest|, 0
  {
    if rest != [] && rest[0] == '}' then Some(([p], rest[1..]))
    else if rest != [] && rest[0] == ',' then PrependItem(p, ParseMembers(rest[1..]))
    else None
  }

  /** One or more members separated by `,` and closed by `}`. */
  function ParseMembers(s: string): (r: Option<(seq<(string, string)>, string)>)
    ensures r.Some? ==> |r.value.1| < |s|
    decreases |s|, 1
  {
    var p := ParseMember(s);
    if p.Some? then MembersAfter(p.value.0, p.value.1) else None
  }

  /**
   * The members of `JSON.parse(s)` in textual order, where `s` should hold an object of strings;
   * None outside the compact form `to_json` writes.
   */
  function ParseObject(s: string): Option<seq<(string, string)>>
  {
    if |s| >= 2 && s[0] == '{' && s[1] == '}' then (if |s| == 2 then Some([]) else None)
    else if s != [] && s[0] == '{' then
      match ParseMembers(s[1..])
      case Some((ps, rest)) => if rest == [] then Some(ps) else None
      case None => None
    else None
  }

  // ---------------------------------------------------------------------
  // Round trips
  // ---------------------------------------------------------------------

  lemma {:induction false} ParseCharsEscape(x: string, rest: string)
    ensures ParseChars(Escape(x) + ['"'] + rest) == Some((x, rest))
    decreases |x|
  {
    if x == [] {
      assert Escape(x) + ['"'] + rest == ['"'] + rest;
    } else {
      ParseCharsEscape(x[1..], rest);
      var tail := Escape(x[1..]) + ['"'] + rest;
      assert Escape(x) + ['"'] + rest == EscapeChar(x[0]) + tail;
      ParseCharsStep(x[0], tail);
      assert [x[0]] + x[1..] == x;
    }
  }

  /** Reading one (escaped) character of a literal puts it in front of the rest. */
  lemma ParseCharsStep(c: char, tail: string)
    ensures ParseChars(EscapeChar(c) + tail) == Prepend(c, ParseChars(tail))
  {
    var s := EscapeChar(c) + tail;
    if c == '"' || c == '\\' {
      assert s[0] == '\\' && s[1] == c && s[2..] == tail;
    } else {
      assert s[0] == c && s[1..] == tail;
    }
  }

  lemma ParseStringQuote(x: string, rest: string)
    ensures ParseString(Quote(x) + rest) == Some((x, rest))
  {
    var s := Quote(x) + rest;
    assert s[1..] == Escape(x) + ['"'] + rest;
    ParseCharsEscape(x, rest);
  }

  /** Reading one literal hands what follows it to `ItemsAfter`. */
  lemma ParseItemsStep(x: string, after: string)
    ensures ParseItems(Quote(x) + after) == ItemsAfter(x, after)
  {
    ParseStringQuote(x, after);
  }

  /** `a + b + c` regrouped around the first literal of a list. */
  lemma Regroup(a: string, b: string, c: string, d: string)
    ensures a + b + c + d == a + (b + (c + d))
  {
  }

  lemma {:induction false} ParseItemsRoundTrip(xs: seq<string>, rest: string)
    requires xs != []
    ensures ParseItems(ArrayItems(xs) + [']'] + rest) == Some((xs, rest))
    decreases |xs|
  {
    if |xs| == 1 {
      var after := [']'] + rest;
      assert ArrayItems(xs) == Quote(xs[0]);
      assert ArrayItems(xs) + [']'] + rest == Quote(xs[0]) + after;
      ParseItemsStep(xs[0], after);
      assert ItemsAfter(xs[0], after) == Some(([xs[0]], after[1..]));
      assert after[1..] == rest;
      assert [xs[0]] == xs;
    } else {
      var tail := ArrayItems(xs[1..]) + [']'] + rest;
      var after := [','] + tail;
      assert ArrayItems(xs) == Quote(xs[0]) + [','] + ArrayItems(xs[1..]);
      Regroup(Quote(xs[0]), [','], ArrayItems(xs[1..]) + [']'], rest);
      assert ArrayItems(xs) + [']'] + rest == Quote(xs[0]) + after;
      ParseItemsStep(xs[0], after);
      assert after[1..] == tail;
      assert ItemsAfter(xs[0], after) == PrependItem(xs[0], ParseItems(tail));
      ParseItemsRoundTrip(xs[1..], rest);
      assert [xs[0]] + xs[1..] == xs;
    }
  }

  /** `JSON.parse(xs.to_json) == xs` for every array of strings. */
  lemma ArrayRoundTrip(xs: seq<string>)
    ensures ParseArray(ArrayJson(xs)) == Some(xs)
  {
    var s := ArrayJson(xs);
    if xs != [] {
      assert s[1..] == ArrayItems(xs) + [']'] + [];
      ParseItemsRoundTrip(xs, []);
      assert Quote(xs[0])[0] == '"';
      assert s[1] == '"';
    }
  }

  lemma ParseMemberRoundTrip(k: string, v: string, rest: string)
    ensures ParseMember(MemberJson(k, v) + rest) == Some(((k, v), rest))
  {
    var afterKey := [':'] + (Quote(v) + rest);
    assert MemberJson(k, v) + rest == Quote(k) + afterKey;
    ParseStringQuote(k, afterKey);
    assert afterKey[1..] == Quote(v) + rest;
    ParseStringQuote(v, rest);
  }

  /** Reading one member hands what follows it to `MembersAfter`. */
  lemma ParseMembersStep(k: string, v: string, after: string)
    ensures ParseMembers(MemberJson(k, v) + after) == MembersAfter((k, v), after)
  {
    ParseMemberRoundTrip(k, v, after);
  }

  lemma ParseMembersLast(p: (string, string), rest: string)
    ensures ParseMembers(ObjectItems([p]) + ['}'] + rest) == Some(([p], rest))
  {
    var after := ['}'] + rest;
    assert ObjectItems([p]) == MemberJson(p.0, p.1);
    assert ObjectItems([p]) + ['}'] + rest == MemberJson(p.0, p.1) + after;
    ParseMembersStep(p.0, p.1, after);
    assert after[1..] == rest;
  }

  lemma ParseMembersCons(p: (string, string), ps: seq<(string, string)>, rest: string)
    requires ps != []
    requires ParseMembers(ObjectItems(ps) + ['}'] + rest) == Some((ps, rest))
    ensures ParseMembers(ObjectItems([p] + ps) + ['}'] + rest) == Some(([p] + ps, rest))
  {
    var m := MemberJson(p.0, p.1);
    var tail := ObjectItems(ps) + ['}'] + rest;
    var after := [','] + tail;
    assert ([p] + ps)[1..] == ps;
    assert ObjectItems([p] + ps) == m + [','] + ObjectItems(ps);
    Regroup(m, [','], ObjectItems(ps) + ['}'], rest);
    assert ObjectItems([p] + ps) + ['}'] + rest == m + after;
    ParseMembersStep(p.0, p.1, after);
    assert after[1..] == tail;
    assert MembersAfter(p, after) == PrependItem(p, ParseMembers(tail));
  }

  lemma {:induction false} ParseMembersRoundTrip(ps: seq<(string, string)>, rest: string)
    requires ps != []
    ensures ParseMembers(ObjectItems(ps) + ['}'] + rest) == Some((ps, rest))
    decreases |ps|
  {
    if |ps| == 1 {
      ParseMembersLast(ps[0], rest);
      assert [ps[0]] == ps;
    } else {
      ParseMembersRoundTrip(ps[1..], rest);
      ParseMembersCons(ps[0], ps[1..], rest);
      assert [ps[0]] + ps[1..] == ps;
    }
  }

  /** `JSON.parse(h.to_json)` gives back the members of `h`, in order. */
  lemma ObjectRoundTrip(ps: seq<(string, string)>)
    ensures ParseObject(ObjectJson(ps)) == Some(ps)
  {
    var s := ObjectJson(ps);
    if ps != [] {
      assert s[1..] == ObjectItems(ps) + ['}'] + [];
      ParseMembersRoundTrip(ps, []);
      assert Quote(ps[0].0)[0] == '"';
      assert s[1] == '"';
    }
  }
  // ---------------------------------------------------------------------
  // The generator never writes a `${` that its input did not contain
  // ---------------------------------------------------------------------

  lemma {:induction false} EscapeShape(x: string)
    ensures |Escape(x)| >= |x|
    ensures x != [] ==> Escape(x)[0] == '\\' || Escape(x)[0] == x[0]
    ensures x != [] ==> Escape(x)[|Escape(x)| - 1] == x[|x| - 1]
    ensures NoOpening(x) ==> NoOpening(Escape(x))
    decreases |x|
  {
    if x != [] {
      EscapeShape(x[1..]);
      if NoOpening(x) {
        assert NoOpening(x[1..]) by {
          forall i | 0 <= i < |x[1..]| - 1 ensures !(x[1..][i] == '$' && x[1..][i + 1] == '{') {
            assert x[1..][i] == x[i + 1] && x[1..][i + 1] == x[i + 2];
          }
        }
        var e := EscapeChar(x[0]);
        assert NoOpening(e) by {
          if |e| == 2 { assert e[0] == '\\'; }
        }
        if x[1..] != [] {
          assert x[1..][0] == x[1];
          assert !(x[0] == '$' && x[1] == '{');
        }
        NoOpeningConcat(e, Escape(x[1..]));
      }
    }
  }

  lemma QuoteShape(x: string)
    ensures |Quote(x)| >= 2 && Quote(x)[0] == '"' && Quote(x)[|Quote(x)| - 1] == '"'
    ensures NoOpening(x) ==> NoOpening(Quote(x))
  {
    EscapeShape(x);
    if NoOpening(x) {
      NoOpeningConcat(['"'], Escape(x));
      NoOpeningConcat(['"'] + Escape(x), ['"']);
    }
  }

  lemma {:induction false} ArrayItemsShape(xs: seq<string>)
    requires forall i :: 0 <= i < |xs| ==> NoOpening(xs[i])
    ensures NoOpening(ArrayItems(xs))
    ensures xs != [] ==> |ArrayItems(xs)| > 0 && ArrayItems(xs)[0] == '"'
    decreases |xs|
  {
    if xs != [] {
      QuoteShape(xs[0]);
      if |xs| > 1 {
        ArrayItemsShape(xs[1..]);
        NoOpeningConcat(Quote(xs[0]), [',']);
        NoOpeningConcat(Quote(xs[0]) + [','], ArrayItems(xs[1..]));
      }
    }
  }

  /** An array of strings free of `${` is written as JSON free of `${`. */
  lemma ArrayJsonNoOpening(xs: seq<string>)
    requires forall i :: 0 <= i < |xs| ==> NoOpening(xs[i])
    ensures NoOpening(ArrayJson(xs))
  {
    ArrayItemsShape(xs);
    NoOpeningConcat(['['], ArrayItems(xs));
    NoOpeningConcat(['['] + ArrayItems(xs), [']']);
  }

  lemma {:induction false} ObjectItemsShape(ps: seq<(string, string)>)
    requires forall i :: 0 <= i < |ps| ==> NoOpening(ps[i].0) && NoOpening(ps[i].1)
    ensures NoOpening(ObjectItems(ps))
    ensures ps != [] ==> |ObjectItems(ps)| > 0 && ObjectItems(ps)[0] == '"'
    decreases |ps|
  {
    if ps != [] {
      QuoteShape(ps[0].0);
      QuoteShape(ps[0].1);
      NoOpeningConcat(Quote(ps[0].0), [':']);
      NoOpeningConcat(Quote(ps[0].0) + [':'], Quote(ps[0].1));
      var m := MemberJson(ps[0].0, ps[0].1);
      assert m[0] == '"';
      if |ps| > 1 {
        ObjectItemsShape(ps[1..]);
        NoOpeningConcat(m, [',']);
        NoOpeningConcat(m + [','], ObjectItems(ps[1..]));
      }
    }
  }

  /** A hash of strings free of `${` is written as JSON free of `${`. */
  lemma ObjectJsonNoOpening(ps: seq<(string, string)>)
    requires forall i :: 0 <= i < |ps| ==> NoOpening(ps[i].0) && NoOpening(ps[i].1)
    ensures NoOpening(ObjectJson(ps))
  {
    ObjectItemsShape(ps);
    NoOpeningConcat(['{'], ObjectItems(ps));
    NoOpeningConcat(['{'] + ObjectItems(ps), ['}']);
  }
}
