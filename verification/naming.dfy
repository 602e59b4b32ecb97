/** Identifier synthesis (macro/src/options.rs): the record-scoped name of
    the marker type generated for a field, and the pieces it is built from.
    Identifiers are character sequences; upper-casing is the ASCII one. */
module Naming {
  import opened Wrappers

  /** `char::to_uppercase` on ASCII: lower-case letters become upper case,
      every other character is left alone. */
  function ToUpper(c: char): (u: char)
    ensures ('a' <= c <= 'z') <==> ('A' <= u <= 'Z' && u != c)
    ensures u == '_' <==> c == '_'
    ensures !('a' <= c <= 'z') ==> u == c
    ensures 'a' <= c <= 'z' ==> u as int - 'A' as int == c as int - 'a' as int
  {
    if 'a' <= c <= 'z' then (c as int - 32) as char else c
  }

  /** `str::to_uppercase`, character by character. */
  function UpperAll(s: string): (r: string)
    ensures |r| == |s|
    ensures forall i :: 0 <= i < |s| ==> r[i] == ToUpper(s[i])
  {
    if |s| == 0 then "" else [ToUpper(s[0])] + UpperAll(s[1..])
  }

  /** Number of occurrences of `c` in `s`. */
  function Count(s: string, c: char): nat
  {
    if |s| == 0 then 0 else (if s[0] == c then 1 else 0) + Count(s[1..], c)
  }

  /** The pieces joined back with the separator between them. */
  function Join(parts: seq<string>, sep: char): string
  {
    if |parts| == 0 then ""
    else if |parts| == 1 then parts[0]
    else parts[0] + [sep] + Join(parts[1..], sep)
  }

  /** `str::split` on one character: the pieces between separators, in order.
      `n` separators give `n + 1` pieces, some of which may be empty. */
  function Split(s: string, sep: char): (parts: seq<string>)
    ensures |parts| == Count(s, sep) + 1
    ensures forall i :: 0 <= i < |parts| ==> sep !in parts[i]
    ensures Join(parts, sep) == s
    ensures parts[0] == "" <==> (|s| == 0 || s[0] == sep)
    decreases |s|
  {
    if |s| == 0 then [""]
    else if s[0] == sep then
      var rest := Split(s[1..], sep);
      assert Join([""] + rest, sep) == [sep] + Join(rest, sep) by {
        if |rest| > 1 {
          assert ([""] + rest)[1..] == rest;
        }
      }
      assert s == [sep] + s[1..];
      [""] + rest
    else
      var rest := Split(s[1..], sep);
      var parts := [[s[0]] + rest[0]] + rest[1..];
      assert Join(parts, sep) == [s[0]] + Join(rest, sep) by {
        if |rest| > 1 {
          assert parts[1..] == rest[1..];
        }
      }
      assert s == [s[0]] + s[1..];
      parts
  }

  /** Every `_` in `s` is immediately followed by a character other than `_`. */
  predicate UnderscoresFollowed(s: string)
  {
    forall i :: 0 <= i < |s| && s[i] == '_' ==> i + 1 < |s| && s[i + 1] != '_'
  }

  /** The identifiers `struct_ident` accepts without panicking: no piece of
      the split on `_` is empty, that is, no leading, trailing or doubled `_`. */
  predicate Nameable(ident: string)
  {
    |ident| > 0 && ident[0] != '_' && UnderscoresFollowed(ident)
  }

  /** No piece is empty. */
  predicate NoEmptyPiece(parts: seq<string>)
  {
    forall i :: 0 <= i < |parts| ==> |parts[i]| > 0
  }

  /** No piece after the first is empty. */
  predicate LaterNonEmpty(parts: seq<string>)
  {
    forall i :: 1 <= i < |parts| ==> |parts[i]| > 0
  }

  /** The closure of options.rs:143-150 applied to one piece: a one-character
      piece is upper-cased whole, a longer one has its first character
      upper-cased; on an empty piece `split_at(1)` panics, here `None`. */
  function Capitalize(v: string): (r: Option<string>)
    ensures r.Some? <==> |v| > 0
    ensures r.Some? ==> |r.value| == |v| && r.value[0] == ToUpper(v[0]) && r.value[1..] == v[1..]
  {
    if |v| == 1 then Some(UpperAll(v))
    else if |v| == 0 then None
    else Some([ToUpper(v[0])] + v[1..])
  }

  /** The capitalised pieces concatenated (`collect` then `join("")`); `None`
      as soon as one piece panics. */
  function CapitalizeAll(parts: seq<string>): (r: Option<string>)
    ensures r.Some? <==> NoEmptyPiece(parts)
  {
    if |parts| == 0 then Some("")
    else
      assert NoEmptyPiece(parts) <==> |parts[0]| > 0 && NoEmptyPiece(parts[1..]) by {
        assert forall i :: 1 <= i < |parts| ==> parts[1..][i - 1] == parts[i];
      }
      match Capitalize(parts[0])
      case None => None
      case Some(head) =>
        match CapitalizeAll(parts[1..])
        case None => None
        case Some(tail) => Some(head + tail)
  }

  /** Reference definition of the camel-case suffix, one character at a time:
      every `_` is dropped and the character after it, like the first
      character, is upper-cased. `cap` says whether the next character starts
      a piece. */
  function CamelCase(s: string, cap: bool): (r: string)
    ensures '_' !in r
    ensures |r| == |s| - Count(s, '_')
  {
    if |s| == 0 then ""
    else if s[0] == '_' then CamelCase(s[1..], true)
    else [if cap then ToUpper(s[0]) else s[0]] + CamelCase(s[1..], false)
  }

  /** `ControlFieldOptions::struct_ident` (options.rs:139-154): the record
      name followed by the field name with each `_`-separated piece
      capitalised and the `_` removed; `None` when the derive panics. */
  function StructIdent(parent: string, ident: string): (r: Option<string>)
    ensures r.Some? <==> Nameable(ident)
    ensures r.Some? ==> r.value == parent + CamelCase(ident, true)
    ensures r.Some? ==> |r.value| == |parent| + |ident| - Count(ident, '_')
    ensures r.Some? ==> r.value[..|parent|] == parent && '_' !in r.value[|parent|..]
  {
    var parts := Split(ident, '_');
    NoEmptyPieceIffNameable(ident);
    match CapitalizeAll(parts)
    case None =>
      assert !NoEmptyPiece(parts);
      None
    case Some(lit) =>
      CapitalizeAllIsCamelCaseOfJoin(parts);
      assert parent + lit == parent + CamelCase(ident, true);
      assert (parent + lit)[|parent|..] == lit;
      Some(parent + lit)
  }

  /** `UnderscoresFollowed` peeled by one character. */
  lemma UnderscoresFollowedCons(t: string)
    requires |t| > 0
    ensures UnderscoresFollowed(t) <==>
      (t[0] == '_' ==> 1 < |t| && t[1] != '_') && UnderscoresFollowed(t[1..])
  {
    if UnderscoresFollowed(t) {
      forall i | 0 <= i < |t[1..]| && t[1..][i] == '_'
        ensures i + 1 < |t[1..]| && t[1..][i + 1] != '_'
      {
        assert t[i + 1] == '_';
      }
    }
    if (t[0] == '_' ==> 1 < |t| && t[1] != '_') && UnderscoresFollowed(t[1..]) {
      forall i | 0 <= i < |t| && t[i] == '_'
        ensures i + 1 < |t| && t[i + 1] != '_'
      {
        if i > 0 {
          assert t[1..][i - 1] == '_';
        }
      }
    }
  }

  /** Only the pieces after the first are constrained by `UnderscoresFollowed`. */
  lemma {:induction false} LaterPiecesNonEmpty(t: string)
    ensures LaterNonEmpty(Split(t, '_')) <==> UnderscoresFollowed(t)
    decreases |t|
  {
    if |t| > 0 {
      var parts := Split(t, '_');
      var rest := Split(t[1..], '_');
      LaterPiecesNonEmpty(t[1..]);
      UnderscoresFollowedCons(t);
      if t[0] == '_' {
        assert parts == [""] + rest;
        assert LaterNonEmpty(parts) <==> |rest[0]| > 0 && LaterNonEmpty(rest) by {
          assert forall i :: 1 <= i < |parts| ==> parts[i] == rest[i - 1];
        }
        assert |rest[0]| > 0 <==> 1 < |t| && t[1] != '_' by {
          assert rest[0] == "" <==> (|t[1..]| == 0 || t[1..][0] == '_');
        }
      } else {
        assert parts == [[t[0]] + rest[0]] + rest[1..];
        assert LaterNonEmpty(parts) <==> LaterNonEmpty(rest) by {
          assert forall i :: 1 <= i < |parts| ==> parts[i] == rest[i];
        }
      }
    }
  }

  /** `struct_ident` panics exactly on the identifiers that are not `Nameable`. */
  lemma NoEmptyPieceIffNameable(ident: string)
    ensures NoEmptyPiece(Split(ident, '_')) <==> Nameable(ident)
  {
    var parts := Split(ident, '_');
    LaterPiecesNonEmpty(ident);
    assert NoEmptyPiece(parts) <==> |parts[0]| > 0 && LaterNonEmpty(parts);
  }

  /** A piece without `_` passes through `CamelCase` capitalised when `cap`
      and unchanged otherwise. */
  lemma {:induction false} CamelCaseOfPiece(w: string, t: string, cap: bool)
    requires '_' !in w
    ensures CamelCase(w + t, cap) ==
      if |w| == 0 then CamelCase(t, cap)
      else [if cap then ToUpper(w[0]) else w[0]] + w[1..] + CamelCase(t, false)
    decreases |w|
  {
    if |w| > 0 {
      var s := w + t;
      assert s[0] == w[0] && w[0] != '_';
      assert s[1..] == w[1..] + t;
      assert CamelCase(s, cap) == [if cap then ToUpper(w[0]) else w[0]] + CamelCase(w[1..] + t, false);
      assert '_' !in w[1..];
      CamelCaseOfPiece(w[1..], t, false);
      if |w| > 1 {
        assert w[1..][1..] == w[2..];
        assert [w[1]] + w[2..] == w[1..];
      } else {
        assert w[1..] + t == t;
      }
    } else {
      assert w + t == t;
    }
  }

  /** Capitalising the pieces and concatenating them is the reference
      camel case of the pieces joined with `_`. */
  lemma {:induction false} CapitalizeAllIsCamelCaseOfJoin(parts: seq<string>)
    requires |parts| > 0
    requires forall i :: 0 <= i < |parts| ==> |parts[i]| > 0 && '_' !in parts[i]
    ensures CapitalizeAll(parts) == Some(CamelCase(Join(parts, '_'), true))
    decreases |parts|
  {
    var w := parts[0];
    var cw := [ToUpper(w[0])] + w[1..];
    assert Capitalize(w) == Some(cw);
    if |parts| == 1 {
      CamelCaseOfPiece(w, "", true);
      assert w + "" == w;
    } else {
      CapitalizeAllIsCamelCaseOfJoin(parts[1..]);
      var rest := Join(parts[1..], '_');
      assert Join(parts, '_') == w + (['_'] + rest);
      CamelCaseOfPiece(w, ['_'] + rest, true);
      assert (['_'] + rest)[1..] == rest;
      assert CamelCase(['_'] + rest, false) == CamelCase(rest, true);
    }
  }

  /** A field name without `_` is one piece: its marker is the parent name
      followed by the field name with its first character upper-cased. */
  lemma StructIdentOfWord(parent: string, w: string, name: string)
    requires |w| > 0 && '_' !in w && name == parent + [ToUpper(w[0])] + w[1..]
    ensures StructIdent(parent, w) == Some(name)
  {
    assert Nameable(w) by {
      assert forall i :: 0 <= i < |w| ==> w[i] != '_';
    }
    CamelCaseOfPiece(w, "", true);
    assert w + "" == w;
    assert parent + CamelCase(w, true) == parent + [ToUpper(w[0])] + w[1..];
  }

  /** Two different field names of one record can share a marker name: a
      digit is not changed by upper-casing, so the `_` in front of it leaves
      no trace. */
  lemma MarkerNamesCollide()
    ensures "a_1" != "a1"
    ensures StructIdent("R", "a_1") == StructIdent("R", "a1") == Some("RA1")
  {
    assert Nameable("a_1") by {
      assert UnderscoresFollowed("a_1");
    }
    StructIdentOfWord("R", "a1", "RA1");
    assert CamelCase("a_1", true) == "A1" by {
      assert CamelCase("1", true) == "1";
      assert CamelCase("_1", false) == "1";
    }
  }

  /** Scoping by the record name does not separate records either: a field
      `b_c` of `Foo` and a field `c` of `FooB` get the same marker name. */
  lemma MarkerNamesCollideAcrossRecords()
    ensures StructIdent("Foo", "b_c") == StructIdent("FooB", "c") == Some("FooBC")
  {
    assert Nameable("b_c") by {
      assert UnderscoresFollowed("b_c");
    }
    StructIdentOfWord("FooB", "c", "FooBC");
    assert CamelCase("b_c", true) == "BC" by {
      assert CamelCase("c", true) == "C";
      assert CamelCase("_c", false) == "C";
    }
    assert "Foo" + CamelCase("b_c", true) == "FooBC";
  }

  /** Two texts neither of which is a prefix of the other differ at some
      position inside both. */
  lemma FirstDifference(p: string, q: string) returns (k: nat)
    requires !(p <= q) && !(q <= p)
    ensures k < |p| && k < |q| && p[k] != q[k]
  {
    if |p| <= |q| {
      assert p != q[..|p|];
    } else {
      assert q != p[..|q|];
    }
    k :| k < |p| && k < |q| && p[k] != q[k];
  }

  /** Scoping by the record name does separate two records when neither
      record name is a prefix of the other: their marker names already
      differ inside the record name. */
  lemma StructIdentDisjointAcrossRecords(p: string, q: string, a: string, b: string)
    requires Nameable(a) && Nameable(b) && !(p <= q) && !(q <= p)
    ensures StructIdent(p, a) != StructIdent(q, b)
  {
    var k := FirstDifference(p, q);
    var na := StructIdent(p, a).value;
    var nb := StructIdent(q, b).value;
    assert na[k] == na[..|p|][k] == p[k];
    assert nb[k] == nb[..|q|][k] == q[k];
  }

  /** Identifiers in lower-case snake case: ASCII lower-case letters and `_`. */
  predicate LowerSnake(s: string)
  {
    forall i :: 0 <= i < |s| ==> ('a' <= s[i] <= 'z') || s[i] == '_'
  }

  /** The first character `CamelCase` emits: upper case exactly at a piece
      start, and for a `_` the upper-cased character after it. */
  lemma CamelCaseHead(s: string, cap: bool)
    requires |s| > 0 && LowerSnake(s) && UnderscoresFollowed(s)
    ensures |CamelCase(s, cap)| > 0
    ensures s[0] != '_' ==> CamelCase(s, cap) == [if cap then ToUpper(s[0]) else s[0]] + CamelCase(s[1..], false)
    ensures s[0] == '_' ==> |s| > 1 && s[1] != '_' && CamelCase(s, cap) == [ToUpper(s[1])] + CamelCase(s[2..], false)
  {
    if s[0] == '_' {
      assert s[1..][0] == s[1] && s[1..][1..] == s[2..];
    }
  }

  /** `CamelCase` loses nothing on lower-case snake case: equal outputs come
      from equal inputs, provided a piece start is never a `_`. */
  lemma {:induction false} CamelCaseInjective(a: string, b: string, cap: bool)
    requires LowerSnake(a) && UnderscoresFollowed(a) && LowerSnake(b) && UnderscoresFollowed(b)
    requires cap ==> (|a| > 0 ==> a[0] != '_') && (|b| > 0 ==> b[0] != '_')
    requires CamelCase(a, cap) == CamelCase(b, cap)
    ensures a == b
    decreases |a| + |b|
  {
    if |a| == 0 || |b| == 0 {
      if |a| > 0 {
        CamelCaseHead(a, cap);
      }
      if |b| > 0 {
        CamelCaseHead(b, cap);
      }
    } else {
      CamelCaseHead(a, cap);
      CamelCaseHead(b, cap);
      UnderscoresFollowedCons(a);
      UnderscoresFollowedCons(b);
      assert LowerSnake(a[1..]) && LowerSnake(b[1..]) by {
        assert forall i :: 0 <= i < |a| - 1 ==> a[1..][i] == a[i + 1];
        assert forall i :: 0 <= i < |b| - 1 ==> b[1..][i] == b[i + 1];
      }
      var ca := CamelCase(a, cap);
      var cb := CamelCase(b, cap);
      assert ca[0] == cb[0] && ca[1..] == cb[1..];
      if a[0] == '_' && b[0] == '_' {
        CamelCaseInjective(a[1..], b[1..], true);
        assert a == [a[0]] + a[1..] && b == [b[0]] + b[1..];
      } else if a[0] == '_' || b[0] == '_' {
        assert false;
      } else {
        assert a[0] == b[0];
        CamelCaseInjective(a[1..], b[1..], false);
        assert a == [a[0]] + a[1..] && b == [b[0]] + b[1..];
      }
    }
  }

  /** Within one record, distinct lower-case snake-case field names get
      distinct marker names. */
  lemma {:induction false} StructIdentInjectiveOnLowerSnake(parent: string, a: string, b: string)
    requires Nameable(a) && Nameable(b) && LowerSnake(a) && LowerSnake(b) && a != b
    ensures StructIdent(parent, a) != StructIdent(parent, b)
  {
    if StructIdent(parent, a) == StructIdent(parent, b) {
      var n := StructIdent(parent, a).value;
      assert n[|parent|..] == CamelCase(a, true) == CamelCase(b, true);
      CamelCaseInjective(a, b, true);
    }
  }

  /** A lower-case snake-case field other than the one-word name `w` gets a
      marker name distinct from the one `w` gets. */
  lemma StructIdentAvoidsWord(parent: string, a: string, w: string)
    requires Nameable(a) && LowerSnake(a) && |w| > 0 && '_' !in w && LowerSnake(w) && a != w
    ensures StructIdent(parent, a) != Some(parent + [ToUpper(w[0])] + w[1..])
  {
    StructIdentOfWord(parent, w, parent + [ToUpper(w[0])] + w[1..]);
    StructIdentInjectiveOnLowerSnake(parent, a, w);
  }
}
