/**
 The server description (`Motd`) of the crate's `protocol` module and its
 encoding: twelve fields in a fixed order, each followed by ';'.
 */
module Protocol {
  import Decimal
  import opened Wrappers

  newtype u16 = x: int | 0 <= x < 0x1_0000
  newtype i64 = x: int | -0x8000_0000_0000_0000 <= x < 0x8000_0000_0000_0000

  /** The crate-wide server id. Its value is fixed outside this model, so it is left unspecified. */
  const SERVER_ID: i64

  const SEPARATOR: char := ';'

  datatype Motd = Motd(
    name: string,
    protocol: u16,
    version: string,
    playerCount: u16,
    playerMax: u16,
    gamemode: string,
    serverId: i64
  )

  /** `Motd::default`: the description a server built without configuration advertises. */
  function DefaultMotd(): (m: Motd)
    ensures m.name == "Netrex Server" && m.version == "1.17.10" && m.gamemode == "Creative"
    ensures m.protocol == 448 && m.playerCount == 10 && m.playerMax == 100
    ensures m.serverId == SERVER_ID
  {
    Motd("Netrex Server", 448, "1.17.10", 10, 100, "Creative", SERVER_ID)
  }

  /**
   The twelve fields `encode` writes, in wire order. The seventh is the
   rendering of the global `SERVER_ID`, not of the Motd's own `serverId`.
   */
  function Fields(m: Motd): (fs: seq<string>)
    ensures |fs| == 12
    ensures Decimal.Canonical(fs[2]) && Decimal.Canonical(fs[4]) && Decimal.Canonical(fs[5])
  {
    [ "MCPE",
      m.name,
      Decimal.FromNat(m.protocol as nat),
      m.version,
      Decimal.FromNat(m.playerCount as nat),
      Decimal.FromNat(m.playerMax as nat),
      Decimal.FromInt(SERVER_ID as int),
      "Netrex",
      m.gamemode,
      "1",
      "19132",
      "19133" ]
  }

  /** Every field followed by the separator, in order. */
  function Joined(fs: seq<string>): string {
    if fs == [] then "" else fs[0] + [SEPARATOR] + Joined(fs[1..])
  }

  /** The string `encode` returns. */
  function Encoded(m: Motd): string {
    Joined(Fields(m))
  }

  /** `Motd::encode`: push each field and then ';' onto an initially empty string. */
  method Encode(m: Motd) returns (parsed: string)
    ensures parsed == Joined(Fields(m))
  {
    parsed := "";
    var prot := Decimal.FromNat(m.protocol as nat);
    var pcount := Decimal.FromNat(m.playerCount as nat);
    var pmax := Decimal.FromNat(m.playerMax as nat);
    var serverId := Decimal.FromInt(SERVER_ID as int);
    var props := ["MCPE", m.name, prot, m.version, pcount, pmax, serverId,
                  "Netrex", m.gamemode, "1", "19132", "19133"];
    for i := 0 to |props|
      invariant parsed == Joined(props[..i])
    {
      JoinedConcat(props[..i], [props[i]]);
      assert props[..i + 1] == props[..i] + [props[i]];
      assert Joined([props[i]]) == props[i] + [SEPARATOR];
      parsed := parsed + props[i];
      parsed := parsed + [SEPARATOR];
    }
    assert props[..|props|] == props;
  }

  /** Joining distributes over concatenation of field lists. */
  lemma {:induction false} JoinedConcat(a: seq<string>, b: seq<string>)
    ensures Joined(a + b) == Joined(a) + Joined(b)
    decreases |a|
  {
    if a != [] {
      assert (a + b)[0] == a[0];
      assert (a + b)[1..] == a[1..] + b;
      JoinedConcat(a[1..], b);
    } else {
      assert a + b == b;
    }
  }

  /** Occurrences of `c` in `s`. */
  function Count(s: string, c: char): nat {
    if s == [] then 0 else (if s[0] == c then 1 else 0) + Count(s[1..], c)
  }

  /** Splitting on `c`, as Rust's `str::split`: the pieces between separators, one more than there are separators. */
  function Split(s: string, c: char): (pieces: seq<string>)
    ensures |pieces| == Count(s, c) + 1
  {
    if s == [] then [""]
    else if s[0] == c then [""] + Split(s[1..], c)
    else
      var rest := Split(s[1..], c);
      [[s[0]] + rest[0]] + rest[1..]
  }

  /** Splitting `f + [c] + rest` when `f` holds no `c` yields `f` and then the pieces of `rest`. */
  lemma {:induction false} SplitField(f: string, c: char, rest: string)
    requires c !in f
    ensures Split(f + [c] + rest, c) == [f] + Split(rest, c)
    decreases |f|
  {
    var s := f + [c] + rest;
    if f == [] {
      assert s == [c] + rest;
      assert s[1..] == rest;
    } else {
      assert s[0] == f[0];
      assert s[1..] == f[1..] + [c] + rest;
      assert c !in f[1..];
      SplitField(f[1..], c, rest);
      assert [f[0]] + f[1..] == f;
    }
  }

  /** When no field holds the separator, splitting the joined string gives back the fields and a trailing empty piece. */
  lemma {:induction false} SplitJoined(fs: seq<string>)
    requires forall i :: 0 <= i < |fs| ==> SEPARATOR !in fs[i]
    ensures Split(Joined(fs), SEPARATOR) == fs + [""]
    ensures Count(Joined(fs), SEPARATOR) == |fs|
    decreases |fs|
  {
    if fs != [] {
      SplitJoined(fs[1..]);
      SplitField(fs[0], SEPARATOR, Joined(fs[1..]));
      assert fs == [fs[0]] + fs[1..];
    }
  }

  /** Whether none of the free-text fields of `m` (name, version, gamemode) contains the separator. */
  predicate SeparatorFree(m: Motd) {
    SEPARATOR !in m.name && SEPARATOR !in m.version && SEPARATOR !in m.gamemode
  }

  lemma FieldsSeparatorFree(m: Motd)
    requires SeparatorFree(m)
    ensures forall i :: 0 <= i < |Fields(m)| ==> SEPARATOR !in Fields(m)[i]
  {
    Decimal.FromIntChars(SERVER_ID as int, SEPARATOR);
  }

  /** With separator-free text fields, the encoding has exactly twelve ';' and splits back into the twelve fields plus an empty tail. */
  lemma EncodedSplits(m: Motd)
    requires SeparatorFree(m)
    ensures Count(Encoded(m), SEPARATOR) == 12
    ensures Split(Encoded(m), SEPARATOR) == Fields(m) + [""]
  {
    FieldsSeparatorFree(m);
    SplitJoined(Fields(m));
  }

  /** Every encoding begins with "MCPE;" and ends with "19132;19133;". */
  lemma EncodedFrame(m: Motd)
    ensures |Encoded(m)| >= 17
    ensures Encoded(m)[..5] == "MCPE;"
    ensures Encoded(m)[|Encoded(m)| - 12..] == "19132;19133;"
  {
    var fs := Fields(m);
    assert fs == fs[..10] + ["19132", "19133"];
    JoinedConcat(fs[..10], ["19132", "19133"]);
    assert Joined(["19132", "19133"]) == "19132;19133;";
    assert Encoded(m) == "MCPE;" + Joined(fs[1..]);
  }

  /** The encoding ignores the Motd's own `serverId`: the seventh field is always the global `SERVER_ID`. */
  lemma EncodedIgnoresServerId(m: Motd, id: i64)
    ensures Encoded(m.(serverId := id)) == Encoded(m)
    ensures Fields(m)[6] == Decimal.FromInt(SERVER_ID as int)
  {
  }

  /** The numeric fields are digit strings that read back as the Motd's numbers; the server id reads back as `SERVER_ID`. */
  lemma NumericFieldsDecode(m: Motd)
    ensures Decimal.Canonical(Fields(m)[2]) && Decimal.Value(Fields(m)[2]) == m.protocol as nat
    ensures Decimal.Canonical(Fields(m)[4]) && Decimal.Value(Fields(m)[4]) == m.playerCount as nat
    ensures Decimal.Canonical(Fields(m)[5]) && Decimal.Value(Fields(m)[5]) == m.playerMax as nat
    ensures Decimal.ParseInt(Fields(m)[6]) == Some(SERVER_ID as int)
  {
  }

  /** The default description's wire fields: name "Netrex Server", protocol 448, version "1.17.10", 10 of 100 players, "Creative". */
  lemma DefaultFields()
    ensures Fields(DefaultMotd())
         == ["MCPE", "Netrex Server", "448", "1.17.10", "10", "100", Decimal.FromInt(SERVER_ID as int),
             "Netrex", "Creative", "1", "19132", "19133"]
  {
    DefaultNumbers();
  }

  lemma DefaultNumbers()
    ensures Decimal.FromNat(448) == "448"
    ensures Decimal.FromNat(10) == "10"
    ensures Decimal.FromNat(100) == "100"
  {
  }
}
