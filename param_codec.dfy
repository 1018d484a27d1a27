/**
 * The encoding of a module's parameter map for the `parameters` column.
 * encoding/json marshals a map[string]string as a JSON object whose keys
 * appear in increasing byte order; this model keeps that shape,
 * {"k1":"v1","k2":"v2"}, escapes only `"` and `\`, and orders the keys by
 * code point (the same order as UTF-8 bytes). Decode is the json.Unmarshal
 * side: it accepts exactly this shape, and a repeated key keeps its last
 * value. The round trip Decode(Encode(m)) == Some(m) makes the encoding
 * injective, so comparing encoded columns compares maps.
 */
module ParamCodec {
  import opened Wrappers
  import Text

  type Params = map<string, string>

  /** Lexicographic order on strings, by code point. */
  predicate LexLessEq(a: string, b: string) {
    if a == [] then true
    else if b == [] then false
    else if a[0] != b[0] then a[0] < b[0]
    else LexLessEq(a[1..], b[1..])
  }

  lemma {:induction false} LexReflexive(a: string)
    ensures LexLessEq(a, a)
  {
    if a != [] { LexReflexive(a[1..]); }
  }

  lemma {:induction false} LexTotal(a: string, b: string)
    ensures LexLessEq(a, b) || LexLessEq(b, a)
  {
    if a != [] && b != [] && a[0] == b[0] { LexTotal(a[1..], b[1..]); }
  }

  lemma {:induction false} LexAntisymmetric(a: string, b: string)
    requires LexLessEq(a, b) && LexLessEq(b, a)
    ensures a == b
  {
    if a != [] && b != [] {
      LexAntisymmetric(a[1..], b[1..]);
      assert a == [a[0]] + a[1..] && b == [b[0]] + b[1..];
    }
  }

  lemma {:induction false} LexTransitive(a: string, b: string, c: string)
    requires LexLessEq(a, b) && LexLessEq(b, c)
    ensures LexLessEq(a, c)
  {
    if a != [] && b != [] && c != [] && a[0] == b[0] && b[0] == c[0] {
      LexTransitive(a[1..], b[1..], c[1..]);
    }
  }

  lemma LexAntisymmetricAll()
    ensures forall a, b :: LexLessEq(a, b) && LexLessEq(b, a) ==> a == b
  {
    forall a, b | LexLessEq(a, b) && LexLessEq(b, a) ensures a == b {
      LexAntisymmetric(a, b);
    }
  }

  predicate IsLeast(k: string, ks: set<string>) {
    k in ks && forall x :: x in ks ==> LexLessEq(k, x)
  }

  lemma {:induction false} LeastExists(ks: set<string>)
    requires ks != {}
    ensures exists k :: IsLeast(k, ks)
    decreases |ks|
  {
    var y :| y in ks;
    var rest := ks - {y};
    if rest == {} {
      LexReflexive(y);
      assert ks == {y};
      assert IsLeast(y, ks);
    } else {
      LeastExists(rest);
      var m :| IsLeast(m, rest);
      LexTotal(m, y);
      if LexLessEq(m, y) {
        assert IsLeast(m, ks);
      } else {
        LexReflexive(y);
        forall x | x in ks ensures LexLessEq(y, x) {
          if x != y { LexTransitive(y, m, x); }
        }
        assert IsLeast(y, ks);
      }
    }
  }

  /** The smallest key of a non-empty key set. */
  function LeastKey(ks: set<string>): (k: string)
    requires ks != {}
    ensures IsLeast(k, ks)
  {
    LeastExists(ks);
    LexAntisymmetricAll();
    var k :| k in ks && IsLeast(k, ks);
    k
  }

  /** The entries of m in increasing key order, as json.Marshal writes them. */
  function Entries(m: Params): (es: seq<(string, string)>)
    ensures |es| == |m|
    decreases |m|
  {
    if m == map[] then []
    else
      var k := LeastKey(m.Keys);
      assert m.Keys == (m - {k}).Keys + {k};
      [(k, m[k])] + Entries(m - {k})
  }

  /** Rebuilds a map from entries; a key written later wins. */
  function ToMap(es: seq<(string, string)>): Params {
    if es == [] then map[]
    else
      var m := ToMap(es[1..]);
      if es[0].0 in m then m else m[es[0].0 := es[0].1]
  }

  lemma {:induction false} EntriesToMap(m: Params)
    ensures ToMap(Entries(m)) == m
    decreases |m|
  {
    if m != map[] {
      var k := LeastKey(m.Keys);
      assert m.Keys == (m - {k}).Keys + {k};
      EntriesToMap(m - {k});
      var es := Entries(m);
      assert es[0] == (k, m[k]) && es[1..] == Entries(m - {k});
    }
  }

  function EscapeChar(c: char): string {
    if c == '"' || c == '\\' then ['\\', c] else [c]
  }

  function Escape(s: string): string {
    if s == [] then [] else EscapeChar(s[0]) + Escape(s[1..])
  }

  function Quote(s: string): string {
    ['"'] + Escape(s) + ['"']
  }

  function EncodeEntry(e: (string, string)): string {
    Quote(e.0) + [':'] + Quote(e.1)
  }

  function EncodeEntries(es: seq<(string, string)>): string {
    if es == [] then []
    else if |es| == 1 then EncodeEntry(es[0])
    else EncodeEntry(es[0]) + [','] + EncodeEntries(es[1..])
  }

  /** The column text for a parameter map. */
  function Encode(m: Params): (s: string)
    ensures |s| >= 2 && s[0] == '{' && s[|s| - 1] == '}'
  {
    ['{'] + EncodeEntries(Entries(m)) + ['}']
  }

  /** Reads the rest of a quoted string after its opening quote: the text and what follows the closing quote. */
  function ParseQuotedBody(t: string): (r: Option<(string, string)>)
    ensures r.Some? ==> |r.value.1| < |t|
  {
    if t == [] then None
    else if t[0] == '"' then Some(([], t[1..]))
    else if t[0] == '\\' then
      if |t| < 2 || !(t[1] == '"' || t[1] == '\\') then None
      else
        match ParseQuotedBody(t[2..])
        case None => None
        case Some(p) => Some(([t[1]] + p.0, p.1))
    else
      match ParseQuotedBody(t[1..])
      case None => None
      case Some(p) => Some(([t[0]] + p.0, p.1))
  }

  function ParseQuoted(t: string): (r: Option<(string, string)>)
    ensures r.Some? ==> |r.value.1| < |t|
  {
    if t == [] || t[0] != '"' then None else ParseQuotedBody(t[1..])
  }

  function ParseEntry(t: string): (r: Option<((string, string), string)>)
    ensures r.Some? ==> |r.value.1| < |t|
  {
    match ParseQuoted(t)
    case None => None
    case Some(k) =>
      if k.1 == [] || k.1[0] != ':' then None
      else
        match ParseQuoted(k.1[1..])
        case None => None
        case Some(v) => Some(((k.0, v.0), v.1))
  }

  /** One or more entries separated by commas, and the text after the last one. */
  function ParseEntries(t: string): (r: Option<(seq<(string, string)>, string)>)
    decreases |t|
  {
    match ParseEntry(t)
    case None => None
    case Some(e) =>
      if e.1 != [] && e.1[0] == ',' then
        match ParseEntries(e.1[1..])
        case None => None
        case Some(more) => Some(([e.0] + more.0, more.1))
      else Some(([e.0], e.1))
  }

  /** Reads column text back into a parameter map; None when it is not an encoded object. */
  function Decode(s: string): Option<Params> {
    if s == [] || s[0] != '{' then None
    else if s[1..] == ['}'] then Some(map[])
    else
      match ParseEntries(s[1..])
      case None => None
      case Some(p) => if p.1 == ['}'] then Some(ToMap(p.0)) else None
  }

  lemma {:induction false} ParseQuotedBodyEscape(s: string, rest: string)
    ensures ParseQuotedBody(Escape(s) + ['"'] + rest) == Some((s, rest))
  {
    if s == [] {
      assert Escape(s) + ['"'] + rest == ['"'] + rest;
    } else {
      var t := Escape(s) + ['"'] + rest;
      var tail := Escape(s[1..]) + ['"'] + rest;
      ParseQuotedBodyEscape(s[1..], rest);
      var e0, e1 := EscapeChar(s[0]), Escape(s[1..]);
      Text.ConcatAssoc(e0, e1, ['"']);
      Text.ConcatAssoc(e0, e1 + ['"'], rest);
      assert t == e0 + tail;
      if s[0] == '"' || s[0] == '\\' {
        assert t[0] == '\\' && t[1] == s[0] && t[2..] == tail;
      } else {
        assert t[0] == s[0] && t[1..] == tail;
      }
      assert [s[0]] + s[1..] == s;
    }
  }

  lemma ParseQuotedQuote(s: string, rest: string)
    ensures ParseQuoted(Quote(s) + rest) == Some((s, rest))
  {
    var t := Quote(s) + rest;
    assert t[1..] == Escape(s) + ['"'] + rest;
    ParseQuotedBodyEscape(s, rest);
  }

  lemma ParseEntryEncode(e: (string, string), rest: string)
    ensures ParseEntry(EncodeEntry(e) + rest) == Some((e, rest))
  {
    var t := EncodeEntry(e) + rest;
    var afterKey := [':'] + Quote(e.1) + rest;
    assert t == Quote(e.0) + afterKey;
    ParseQuotedQuote(e.0, afterKey);
    assert afterKey[1..] == Quote(e.1) + rest;
    ParseQuotedQuote(e.1, rest);
  }

  lemma ParseEntriesLast(t: string, e: (string, string), rest: string)
    requires ParseEntry(t) == Some((e, rest))
    requires rest == [] || rest[0] != ','
    ensures ParseEntries(t) == Some(([e], rest))
  {
  }

  lemma ParseEntriesNext(t: string, e: (string, string), tail: string, es: seq<(string, string)>, rest: string)
    requires ParseEntry(t) == Some((e, tail))
    requires tail != [] && tail[0] == ','
    requires ParseEntries(tail[1..]) == Some((es, rest))
    ensures ParseEntries(t) == Some(([e] + es, rest))
  {
  }

  lemma EncodeEntriesCons(es: seq<(string, string)>, rest: string)
    requires |es| >= 2
    ensures EncodeEntries(es) + rest == EncodeEntry(es[0]) + ([','] + (EncodeEntries(es[1..]) + rest))
  {
    var a, b, c := EncodeEntry(es[0]), [','], EncodeEntries(es[1..]);
    Text.ConcatAssoc(a + b, c, rest);
    Text.ConcatAssoc(a, b, c + rest);
  }

  lemma {:induction false} ParseEntriesEncode(es: seq<(string, string)>, rest: string)
    requires es != []
    requires rest == [] || rest[0] != ','
    ensures ParseEntries(EncodeEntries(es) + rest) == Some((es, rest))
  {
    if |es| == 1 {
      ParseEntryEncode(es[0], rest);
      ParseEntriesLast(EncodeEntries(es) + rest, es[0], rest);
      assert [es[0]] == es;
    } else {
      var more := EncodeEntries(es[1..]) + rest;
      var tail := [','] + more;
      EncodeEntriesCons(es, rest);
      ParseEntryEncode(es[0], tail);
      assert tail[1..] == more;
      ParseEntriesEncode(es[1..], rest);
      ParseEntriesNext(EncodeEntries(es) + rest, es[0], tail, es[1..], rest);
      assert [es[0]] + es[1..] == es;
    }
  }

  /** Decoding undoes encoding. */
  lemma DecodeEncode(m: Params)
    ensures Decode(Encode(m)) == Some(m)
  {
    var es := Entries(m);
    var s := Encode(m);
    if es == [] {
      assert m == map[] by { assert |m| == 0; }
      assert s[1..] == ['}'];
    } else {
      assert s[1..] == EncodeEntries(es) + ['}'];
      ParseEntriesEncode(es, ['}']);
      EntriesToMap(m);
    }
  }

  /** Two maps with the same column text are the same map. */
  lemma EncodeInjective(m1: Params, m2: Params)
    requires Encode(m1) == Encode(m2)
    ensures m1 == m2
  {
    DecodeEncode(m1);
    DecodeEncode(m2);
  }
}
