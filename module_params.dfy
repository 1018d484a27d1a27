/**
 * How a module's parameter map is split for storage. The key "name" is
 * reserved: it is stored in its own column, and the remaining keys are
 * encoded together into the `parameters` column. Reading puts "name"
 * back. A map without "name" is stored with the empty name, because a
 * Go map lookup of a missing key yields "".
 */
module ModuleParams {
  import opened Wrappers
  import opened ParamCodec

  const NameKey := "name"

  /** The (name, encoded parameters) columns for a module map. */
  datatype Columns = Columns(name: string, parameters: string)

  function NameOf(m: Params): string {
    if NameKey in m then m[NameKey] else ""
  }

  /** The map without its reserved key. */
  function Stripped(m: Params): (p: Params)
    ensures NameKey !in p
    ensures forall k :: k in m && k != NameKey ==> k in p && p[k] == m[k]
    ensures forall k :: k in p ==> k in m
  {
    m - {NameKey}
  }

  function ToColumns(m: Params): Columns {
    Columns(NameOf(m), Encode(Stripped(m)))
  }

  /** Decoded parameters with the name column put back under "name". */
  function Reinject(name: string, p: Params): (m: Params)
    ensures NameKey in m && m[NameKey] == name
    ensures forall k :: k in p && k != NameKey ==> k in m && m[k] == p[k]
    ensures forall k :: k in m && k != NameKey ==> k in p
  {
    p[NameKey := name]
  }

  /** What a read gives back for stored columns; None when the parameters do not decode. */
  function FromColumns(c: Columns): Option<Params> {
    match Decode(c.parameters)
    case None => None
    case Some(p) => Some(Reinject(c.name, p))
  }

  /** Storing then reading a map gives it back with "name" set, to "" when it had none. */
  lemma ColumnsRoundTrip(m: Params)
    ensures FromColumns(ToColumns(m)) == Some(m[NameKey := NameOf(m)])
  {
    DecodeEncode(Stripped(m));
    var back := Reinject(NameOf(m), Stripped(m));
    assert back.Keys == m[NameKey := NameOf(m)].Keys;
    assert back == m[NameKey := NameOf(m)];
  }

  /** The round trip is exact precisely for the maps that carry a "name". */
  lemma ColumnsRoundTripExact(m: Params)
    ensures FromColumns(ToColumns(m)) == Some(m) <==> NameKey in m
  {
    ColumnsRoundTrip(m);
    if NameKey in m {
      assert m[NameKey := NameOf(m)] == m;
    }
  }

  /** Two maps that both carry a "name" are stored identically only when they are equal. */
  lemma ColumnsInjective(m1: Params, m2: Params)
    requires NameKey in m1 && NameKey in m2
    requires ToColumns(m1) == ToColumns(m2)
    ensures m1 == m2
  {
    EncodeInjective(Stripped(m1), Stripped(m2));
    ColumnsRoundTripExact(m1);
    ColumnsRoundTripExact(m2);
    ColumnsRoundTrip(m1);
    ColumnsRoundTrip(m2);
  }

  /** What stored columns look like when they were written by ToColumns. */
  predicate WellFormed(c: Columns) {
    match Decode(c.parameters)
    case None => false
    case Some(p) => NameKey !in p
  }

  lemma ToColumnsWellFormed(m: Params)
    ensures WellFormed(ToColumns(m))
  {
    DecodeEncode(Stripped(m));
  }
}
