/**
 Writing configurations: the entries that describe proxies and connections, and
 the round trips from descriptions to entries, to the bytes of a file, and
 through the loader to the bus.
 */
module ConfigWriter {
  import opened Options
  import opened Numerals
  import opened LcfgTokens
  import opened LcfgPaths
  import opened LcfgGrammar
  import opened LcfgLanguage
  import opened ConfigMaps
  import opened MessageBuses
  import opened Routing
  import opened LoadConfig
  import opened Loader

  type Dict = map<string, string>

  predicate Holds(cfg: Dict, key: string, value: string) {
    key in cfg && cfg[key] == value
  }

  // ------------------------------------------------------------- single descriptions

  predicate Fits(n: int) {
    -0x8000_0000_0000_0000 <= n <= 0x7fff_ffff_ffff_ffff
  }

  /** The numbers fit the fields that they are stored in, and `strtol`. */
  predicate ConnectionFits(c: ConnectionConfig) {
    && -0x8000 <= c.remoteAddr < 0x8000 && Fits(c.appTimeout) && Fits(c.linkTimeout)
    && 0 <= c.fragSize && Fits(c.fragSize) && 0 <= c.numRetry && Fits(c.numRetry)
    && 0 <= c.useConfirms < 256
  }

  predicate ProxyFits(p: ProxyConfig) {
    -0x8000 <= p.localAddr < 0x8000 && 0 <= p.isMaster < 256
  }

  /** The properties of a connection, each under its own key, are read into the fields of that name. */
  lemma ConnectionIsRead(cfg: Dict, name: string, n: nat, c: ConnectionConfig)
    requires ConnectionFits(c)
    requires Holds(cfg, name + "-connection-" + Decimal(n), SignedDecimal(c.remoteAddr))
    requires Holds(cfg, name + "-" + SignedDecimal(c.remoteAddr) + "-" + "phys-port", c.portName)
    requires Holds(cfg, name + "-" + SignedDecimal(c.remoteAddr) + "-" + "timeout-app", SignedDecimal(c.appTimeout))
    requires Holds(cfg, name + "-" + SignedDecimal(c.remoteAddr) + "-" + "timeout-link", SignedDecimal(c.linkTimeout))
    requires Holds(cfg, name + "-" + SignedDecimal(c.remoteAddr) + "-" + "frag-size", SignedDecimal(c.fragSize))
    requires Holds(cfg, name + "-" + SignedDecimal(c.remoteAddr) + "-" + "retries", SignedDecimal(c.numRetry))
    requires Holds(cfg, name + "-" + SignedDecimal(c.remoteAddr) + "-" + "use-confirms", SignedDecimal(c.useConfirms))
    ensures ConnectionConfigOf(cfg, name, n) == c
    ensures ConnectionKey(name, n) in cfg && ConnectionComplete(cfg, name, n)
  {
    hide Strtol, SignedDecimal, ToInt, ToShort, ToUnsignedLong;
    StrtolSignedDecimal(c.remoteAddr);
    StrtolSignedDecimal(c.appTimeout);
    StrtolSignedDecimal(c.linkTimeout);
    StrtolSignedDecimal(c.fragSize);
    StrtolSignedDecimal(c.numRetry);
    StrtolSignedDecimal(c.useConfirms);
    NarrowExactly(c.remoteAddr);
    UnsignedExactly(c.fragSize);
    UnsignedExactly(c.numRetry);
  }

  /** The name of a proxy and its properties, each under its own key, are read into the fields of that name. */
  lemma ProxyIsRead(cfg: Dict, n: nat, name: string, p: ProxyConfig)
    requires ProxyFits(p)
    requires Holds(cfg, "proxy-" + Decimal(n), name)
    requires Holds(cfg, name + "-address", SignedDecimal(p.localAddr))
    requires Holds(cfg, name + "-is-master", SignedDecimal(p.isMaster))
    ensures ProxyKey(n) in cfg && SectionOf(cfg, n).name == name && SectionOf(cfg, n).config == p
  {
    hide Strtol, SignedDecimal, ToShort;
    StrtolSignedDecimal(p.localAddr);
    StrtolSignedDecimal(p.isMaster);
    NarrowExactly(p.localAddr);
  }

  /**
   Numbers that do not fit: whatever the texts are, timeouts are kept, frames and
   retries are kept exactly when they are not negative, and the two flags are kept
   exactly when they fit a byte; otherwise the low bits are stored.
   */
  lemma FieldsAreKeptExactly(cfg: Dict, name: string, n: nat)
    ensures var c := ConnectionConfigOf(cfg, name, n);
            var stem := name + "-" + SignedDecimal(RemoteAddr(cfg, name, n)) + "-";
            && c.portName == LoadConfig.Value(cfg, stem + "phys-port")
            && c.appTimeout == Strtol(LoadConfig.Value(cfg, stem + "timeout-app"))
            && c.linkTimeout == Strtol(LoadConfig.Value(cfg, stem + "timeout-link"))
            && StoredUnsigned(c.fragSize, Strtol(LoadConfig.Value(cfg, stem + "frag-size")), 0x1_0000_0000_0000_0000)
            && StoredUnsigned(c.numRetry, Strtol(LoadConfig.Value(cfg, stem + "retries")), 0x1_0000_0000_0000_0000)
            && StoredUnsigned(c.useConfirms, Strtol(LoadConfig.Value(cfg, stem + "use-confirms")), 256)
    ensures StoredUnsigned(ProxyConfigOf(cfg, name).isMaster, Strtol(LoadConfig.Value(cfg, name + "-is-master")), 256)
  {
    hide Strtol, SignedDecimal;
    var c := ConnectionConfigOf(cfg, name, n);
    var stem := name + "-" + SignedDecimal(RemoteAddr(cfg, name, n)) + "-";
    LowBits(Strtol(LoadConfig.Value(cfg, stem + "frag-size")), c.fragSize, 0x1_0000_0000_0000_0000);
    LowBits(Strtol(LoadConfig.Value(cfg, stem + "retries")), c.numRetry, 0x1_0000_0000_0000_0000);
    LowBits(Strtol(LoadConfig.Value(cfg, stem + "use-confirms")), c.useConfirms, 256);
    LowBits(Strtol(LoadConfig.Value(cfg, name + "-is-master")), ProxyConfigOf(cfg, name).isMaster, 256);
  }

  /** What an unsigned field with `size` values stores of a number. */
  predicate StoredUnsigned(stored: int, number: int, size: int)
    requires size > 0
  {
    0 <= stored < size && (stored - number) % size == 0 && (stored == number <==> 0 <= number < size)
  }

  lemma LowBits(number: int, stored: int, size: int)
    requires size > 0 && 0 <= stored < size && (stored - number) % size == 0
    ensures StoredUnsigned(stored, number, size)
  {
    if 0 <= number < size {
      var k := (stored - number) / size;
      assert stored - number == k * size && -size < k * size < size;
      assert k == 0 by {
        SmallMultiple(k, size);
      }
    }
  }

  lemma SmallMultiple(k: int, size: int)
    requires size > 0 && -size < k * size < size
    ensures k == 0
  {
  }

  // -------------------------------------------------------------- whole descriptions

  predicate DescribesConnection(cfg: Dict, name: string, n: nat, c: ConnectionConfig) {
    var stem := name + "-" + SignedDecimal(c.remoteAddr) + "-";
    && ConnectionFits(c)
    && Holds(cfg, name + "-connection-" + Decimal(n), SignedDecimal(c.remoteAddr))
    && Holds(cfg, stem + "phys-port", c.portName)
    && Holds(cfg, stem + "timeout-app", SignedDecimal(c.appTimeout))
    && Holds(cfg, stem + "timeout-link", SignedDecimal(c.linkTimeout))
    && Holds(cfg, stem + "frag-size", SignedDecimal(c.fragSize))
    && Holds(cfg, stem + "retries", SignedDecimal(c.numRetry))
    && Holds(cfg, stem + "use-confirms", SignedDecimal(c.useConfirms))
  }

  predicate DescribesSection(cfg: Dict, s: Section) {
    && ProxyFits(s.config)
    && Holds(cfg, s.name + "-address", SignedDecimal(s.config.localAddr))
    && Holds(cfg, s.name + "-is-master", SignedDecimal(s.config.isMaster))
    && (forall k | 0 <= k < |s.connections| :: DescribesConnection(cfg, s.name, k, s.connections[k]))
    && ConnectionKey(s.name, |s.connections|) !in cfg
  }

  /** The dictionary has the entries of these sections, and the numbering ends behind them. */
  predicate Describes(cfg: Dict, sections: seq<Section>) {
    && (forall i | 0 <= i < |sections| :: Holds(cfg, ProxyKey(i), sections[i].name) && DescribesSection(cfg, sections[i]))
    && ProxyKey(|sections|) !in cfg
  }

  lemma {:induction false} ConnectionsAreRead(cfg: Dict, s: Section, k: nat)
    requires DescribesSection(cfg, s) && k <= |s.connections|
    ensures ConnectionsFrom(cfg, s.name, k) == s.connections[k..]
    ensures ConnectionsComplete(cfg, s.name, k)
    decreases |s.connections| - k
  {
    hide DescribesConnection, ConnectionConfigOf, ConnectionComplete, Decimal, SignedDecimal;
    if k < |s.connections| {
      var c := s.connections[k];
      DescribedConnectionIsRead(cfg, s.name, k, c);
      ConnectionKeyUnused(cfg, s.name, k);
      ConnectionsAreRead(cfg, s, k + 1);
    }
  }

  lemma DescribedConnectionIsRead(cfg: Dict, name: string, n: nat, c: ConnectionConfig)
    requires DescribesConnection(cfg, name, n, c)
    ensures ConnectionKey(name, n) in cfg && ConnectionConfigOf(cfg, name, n) == c && ConnectionComplete(cfg, name, n)
  {
    ConnectionIsRead(cfg, name, n, c);
  }

  /** A dictionary that describes sections is read as these sections. */
  lemma {:induction false} SectionsAreRead(cfg: Dict, sections: seq<Section>, i: nat)
    requires Describes(cfg, sections) && i <= |sections|
    ensures SectionsFrom(cfg, i) == sections[i..] && Complete(cfg, i)
    decreases |sections| - i
  {
    hide ConnectionsFrom, ConnectionsComplete, ProxyConfigOf, Decimal, SignedDecimal;
    if i < |sections| {
      var s := sections[i];
      ProxyIsRead(cfg, i, s.name, s.config);
      ConnectionsAreRead(cfg, s, 0);
      assert s.connections[0..] == s.connections;
      ProxyKeyUnused(cfg, i);
      SectionsAreRead(cfg, sections, i + 1);
    }
  }

  // --------------------------------------------------------------------- the writer

  function ConnectionEntries(name: string, n: nat, c: ConnectionConfig): seq<Entry> {
    var stem := name + "-" + SignedDecimal(c.remoteAddr) + "-";
    [Entry(ConnectionKey(name, n), SignedDecimal(c.remoteAddr)),
     Entry(stem + "phys-port", c.portName),
     Entry(stem + "timeout-app", SignedDecimal(c.appTimeout)),
     Entry(stem + "timeout-link", SignedDecimal(c.linkTimeout)),
     Entry(stem + "frag-size", SignedDecimal(c.fragSize)),
     Entry(stem + "retries", SignedDecimal(c.numRetry)),
     Entry(stem + "use-confirms", SignedDecimal(c.useConfirms))]
  }

  function ConnectionsEntries(name: string, n: nat, cs: seq<ConnectionConfig>): seq<Entry>
    decreases |cs|
  {
    if cs == [] then [] else ConnectionEntries(name, n, cs[0]) + ConnectionsEntries(name, n + 1, cs[1..])
  }

  function SectionEntries(i: nat, s: Section): seq<Entry> {
    [Entry(ProxyKey(i), s.name),
     Entry(s.name + "-address", SignedDecimal(s.config.localAddr)),
     Entry(s.name + "-is-master", SignedDecimal(s.config.isMaster))]
    + ConnectionsEntries(s.name, 0, s.connections)
  }

  /** The entries of a configuration, numbered from `i`. */
  function ConfigEntries(i: nat, sections: seq<Section>): seq<Entry>
    decreases |sections|
  {
    if sections == [] then [] else SectionEntries(i, sections[0]) + ConfigEntries(i + 1, sections[1..])
  }

  predicate AllHold(cfg: Dict, es: seq<Entry>) {
    forall e | e in es :: Holds(cfg, e.key, e.value)
  }

  predicate SectionFits(s: Section) {
    ProxyFits(s.config) && forall c | c in s.connections :: ConnectionFits(c)
  }

  lemma ConnectionDescribed(cfg: Dict, name: string, n: nat, c: ConnectionConfig)
    requires AllHold(cfg, ConnectionEntries(name, n, c)) && ConnectionFits(c)
    ensures DescribesConnection(cfg, name, n, c)
  {
    var es := ConnectionEntries(name, n, c);
    assert es[0] in es && es[1] in es && es[2] in es && es[3] in es && es[4] in es && es[5] in es && es[6] in es;
  }

  lemma {:induction false} ConnectionsDescribed(cfg: Dict, name: string, n: nat, cs: seq<ConnectionConfig>)
    requires AllHold(cfg, ConnectionsEntries(name, n, cs)) && forall c | c in cs :: ConnectionFits(c)
    ensures forall k | 0 <= k < |cs| :: DescribesConnection(cfg, name, n + k, cs[k])
    decreases |cs|
  {
    hide ConnectionEntries, DescribesConnection, ConnectionFits, Holds;
    if cs != [] {
      assert cs[0] in cs;
      ConnectionDescribed(cfg, name, n, cs[0]);
      ConnectionsDescribed(cfg, name, n + 1, cs[1..]);
      forall k | 0 <= k < |cs|
        ensures DescribesConnection(cfg, name, n + k, cs[k])
      {
        if k > 0 {
          assert DescribesConnection(cfg, name, (n + 1) + (k - 1), cs[1..][k - 1]);
        }
      }
    }
  }

  lemma SectionDescribed(cfg: Dict, i: nat, s: Section)
    requires AllHold(cfg, SectionEntries(i, s)) && SectionFits(s) && ConnectionKey(s.name, |s.connections|) !in cfg
    ensures Holds(cfg, ProxyKey(i), s.name) && DescribesSection(cfg, s)
  {
    hide DescribesConnection, ConnectionsEntries, ConnectionFits;
    var es := SectionEntries(i, s);
    assert es[0] in es && es[1] in es && es[2] in es;
    assert forall e | e in ConnectionsEntries(s.name, 0, s.connections) :: e in es;
    ConnectionsDescribed(cfg, s.name, 0, s.connections);
    forall k | 0 <= k < |s.connections|
      ensures DescribesConnection(cfg, s.name, k, s.connections[k])
    {
      assert DescribesConnection(cfg, s.name, 0 + k, s.connections[k]);
    }
  }

  lemma {:induction false} SectionsDescribed(cfg: Dict, i: nat, sections: seq<Section>)
    requires AllHold(cfg, ConfigEntries(i, sections)) && forall s | s in sections :: SectionFits(s)
    requires forall s | s in sections :: ConnectionKey(s.name, |s.connections|) !in cfg
    ensures forall k | 0 <= k < |sections| :: Holds(cfg, ProxyKey(i + k), sections[k].name) && DescribesSection(cfg, sections[k])
    decreases |sections|
  {
    hide SectionEntries, DescribesSection, SectionFits, Holds, ProxyKey, ConnectionKey;
    if sections != [] {
      assert sections[0] in sections;
      SectionDescribed(cfg, i, sections[0]);
      SectionsDescribed(cfg, i + 1, sections[1..]);
      forall k | 0 <= k < |sections|
        ensures Holds(cfg, ProxyKey(i + k), sections[k].name) && DescribesSection(cfg, sections[k])
      {
        if k > 0 {
          assert Holds(cfg, ProxyKey((i + 1) + (k - 1)), sections[1..][k - 1].name);
          assert DescribesSection(cfg, sections[1..][k - 1]);
        }
      }
    }
  }

  /** No key is written twice, and none continues a numbering. */
  predicate Unambiguous(sections: seq<Section>) {
    var es := ConfigEntries(0, sections);
    && DistinctKeys(es)
    && (forall e | e in es :: e.key != ProxyKey(|sections|))
    && forall e, s | e in es && s in sections :: e.key != ConnectionKey(s.name, |s.connections|)
  }

  predicate AllFit(sections: seq<Section>) {
    forall s | s in sections :: SectionFits(s)
  }

  /** What is written as entries is read back: every proxy and every connection, field by field, in order. */
  lemma WrittenIsRead(sections: seq<Section>)
    requires AllFit(sections) && Unambiguous(sections)
    ensures var cfg := Dictionary(ConfigEntries(0, sections));
            SectionsFrom(cfg, 0) == sections && Complete(cfg, 0)
  {
    hide ConfigEntries, ConnectionKey, ProxyKey, DescribesSection, SectionFits, SectionsFrom, Complete;
    var es := ConfigEntries(0, sections);
    var cfg := Dictionary(es);
    forall e | e in es
      ensures Holds(cfg, e.key, e.value)
    {
      DictionaryItems(es, e.key, e.value);
      assert Entry(e.key, e.value) == e;
    }
    DictionaryKeys(es, ProxyKey(|sections|));
    forall s | s in sections
      ensures ConnectionKey(s.name, |s.connections|) !in cfg
    {
      DictionaryKeys(es, ConnectionKey(s.name, |s.connections|));
    }
    SectionsDescribed(cfg, 0, sections);
    forall i | 0 <= i < |sections|
      ensures Holds(cfg, ProxyKey(i), sections[i].name) && DescribesSection(cfg, sections[i])
    {
      assert Holds(cfg, ProxyKey(0 + i), sections[i].name);
    }
    SectionsAreRead(cfg, sections, 0);
    assert sections[0..] == sections;
  }

  // ------------------------------------------------------------------ distinct keys

  /** What stands before the first dash. */
  function Head(key: string): string {
    if key == "" || key[0] == '-' then "" else [key[0]] + Head(key[1..])
  }

  lemma {:induction false} HeadOf(name: string, tail: string)
    requires '-' !in name
    ensures Head(name + "-" + tail) == name
  {
    var key := name + "-" + tail;
    if name != "" {
      assert name[0] in name && key[1..] == name[1..] + "-" + tail;
      HeadOf(name[1..], tail);
    }
  }

  lemma PropertyKeysDiffer(name: string, r: int, p: string, s: int, q: string)
    requires Fits(r) && Fits(s)
    ensures ConnectionProperty(name, r, p) == ConnectionProperty(name, s, q) <==> r == s && p == q
  {
    hide Strtol, SignedDecimal;
    var a, b := SignedDecimal(r) + "-" + p, SignedDecimal(s) + "-" + q;
    assert ConnectionProperty(name, r, p) == (name + "-") + a && ConnectionProperty(name, s, q) == (name + "-") + b;
    assert ((name + "-") + a)[|name| + 1..] == a && ((name + "-") + b)[|name| + 1..] == b;
    StrtolUpToDash(r, p);
    StrtolUpToDash(s, q);
    if r == s {
      var stem := SignedDecimal(r) + "-";
      assert (stem + p)[|stem|..] == p && (stem + q)[|stem|..] == q;
    }
  }

  /** The part of a key behind the name begins with a letter of its own, or with a number. */
  lemma SectionKeysDiffer(name: string, n: nat, r: int, p: string)
    ensures ConnectionProperty(name, r, p) != ConnectionKey(name, n)
    ensures ConnectionProperty(name, r, p) != name + "-address" && ConnectionProperty(name, r, p) != name + "-is-master"
    ensures ConnectionKey(name, n) != name + "-address" && ConnectionKey(name, n) != name + "-is-master"
    ensures name + "-address" != name + "-is-master"
  {
    NumberStart(r);
    var i := |name| + 1;
    var number := SignedDecimal(r);
    assert ConnectionProperty(name, r, p)[i] == number[0];
    assert ConnectionKey(name, n)[i] == 'c' && (name + "-address")[i] == 'a' && (name + "-is-master")[i] == 'i';
  }

  lemma NumberStart(n: int)
    ensures SignedDecimal(n) != "" && (SignedDecimal(n)[0] == '-' || IsDigit(SignedDecimal(n)[0]))
  {
    SignedDecimalIsNumeral(n);
    var digits := Unsigned(SignedDecimal(n));
    assert digits[0] in digits;
  }

  lemma SectionKeyHeads(name: string, n: nat, r: int, p: string)
    requires '-' !in name
    ensures Head(name + "-address") == Head(name + "-is-master") == name
    ensures Head(ConnectionKey(name, n)) == Head(ConnectionProperty(name, r, p)) == name
  {
    hide Head;
    HeadOf(name, "address");
    HeadOf(name, "is-master");
    HeadOf(name, "connection-" + Decimal(n));
    HeadOf(name, SignedDecimal(r) + "-" + p);
    assert name + "-address" == name + "-" + "address" && name + "-is-master" == name + "-" + "is-master";
    assert ConnectionKey(name, n) == name + "-" + ("connection-" + Decimal(n));
    assert ConnectionProperty(name, r, p) == name + "-" + (SignedDecimal(r) + "-" + p);
  }

  lemma ProxyKeyHead(i: nat)
    ensures Head(ProxyKey(i)) == "proxy"
  {
    HeadOf("proxy", Decimal(i));
    assert ProxyKey(i) == "proxy" + "-" + Decimal(i);
  }

  lemma NamedProxy(i: nat, n: nat, r: int, p: string)
    ensures ProxyKey(i) != "proxy-address" && ProxyKey(i) != "proxy-is-master"
    ensures ProxyKey(i) != ConnectionKey("proxy", n) && ProxyKey(i) != ConnectionProperty("proxy", r, p)
  {
    hide Decimal, SignedDecimal;
    DecimalDigits(i);
    assert ProxyKey(i)[6] == Decimal(i)[0] && Decimal(i)[0] in Decimal(i);
    assert ConnectionKey("proxy", n)[6] == 'c';
    var dash := 6 + |SignedDecimal(r)|;
    assert ConnectionProperty("proxy", r, p)[dash] == '-';
    assert dash < |ProxyKey(i)| ==> ProxyKey(i)[dash] == Decimal(i)[dash - 6] && Decimal(i)[dash - 6] in Decimal(i);
  }

  /** The numbered proxy keys are no keys of a section, whatever its name. */
  lemma ProxyKeysDiffer(i: nat, name: string, n: nat, r: int, p: string)
    requires '-' !in name
    ensures ProxyKey(i) != name + "-address" && ProxyKey(i) != name + "-is-master"
    ensures ProxyKey(i) != ConnectionKey(name, n) && ProxyKey(i) != ConnectionProperty(name, r, p)
  {
    hide Head, ProxyKey, ConnectionKey, ConnectionProperty;
    SectionKeyHeads(name, n, r, p);
    ProxyKeyHead(i);
    if name == "proxy" {
      NamedProxy(i, n, r, p);
      assert "proxy" + "-address" == "proxy-address" && "proxy" + "-is-master" == "proxy-is-master";
    }
  }

  /** The keys under which the connections of a section are written. */
  ghost predicate ConnectionsKey(key: string, name: string, n: nat, cs: seq<ConnectionConfig>) {
    || (exists m: nat :: n <= m < n + |cs| && key == ConnectionKey(name, m))
    || (exists c, i: nat :: c in cs && i < 6 && key == ConnectionProperty(name, c.remoteAddr, PropertyWord(i)))
  }

  function PropertyWord(i: nat): string
    requires i < 6
  {
    ["phys-port", "timeout-app", "timeout-link", "frag-size", "retries", "use-confirms"][i]
  }

  lemma WordsDiffer(i: nat, j: nat)
    requires i < j < 6
    ensures PropertyWord(i) != PropertyWord(j)
  {
    assert PropertyWord(1)[8] == 'a' && PropertyWord(2)[8] == 'l';
    assert PropertyWord(0)[0] == 'p' && PropertyWord(3)[0] == 'f' && PropertyWord(4)[0] == 'r' && PropertyWord(5)[0] == 'u';
    assert PropertyWord(1)[0] == 't' && PropertyWord(2)[0] == 't';
  }

  lemma ConnectionEntryKeys(name: string, n: nat, c: ConnectionConfig)
    requires Fits(c.remoteAddr)
    ensures DistinctKeys(ConnectionEntries(name, n, c))
    ensures forall e | e in ConnectionEntries(name, n, c) :: ConnectionsKey(e.key, name, n, [c])
  {
    hide ConnectionKey, ConnectionProperty, SignedDecimal;
    var es := ConnectionEntries(name, n, c);
    EntryKeysByWord(name, n, c);
    forall i, j | 0 <= i < j < 7
      ensures es[i].key != es[j].key
    {
      if i == 0 {
        SectionKeysDiffer(name, n, c.remoteAddr, PropertyWord(j - 1));
      } else {
        WordsDiffer(i - 1, j - 1);
        PropertyKeysDiffer(name, c.remoteAddr, PropertyWord(i - 1), c.remoteAddr, PropertyWord(j - 1));
      }
    }
    assert c in [c] && n <= n < n + |[c]|;
  }

  lemma EntryKeysByWord(name: string, n: nat, c: ConnectionConfig)
    ensures var es := ConnectionEntries(name, n, c);
            |es| == 7 && es[0].key == ConnectionKey(name, n)
            && forall i | 1 <= i < 7 :: es[i].key == ConnectionProperty(name, c.remoteAddr, PropertyWord(i - 1))
  {
  }

  lemma DistinctConcat(a: seq<Entry>, b: seq<Entry>)
    requires DistinctKeys(a) && DistinctKeys(b)
    requires forall e, f | e in a && f in b :: e.key != f.key
    ensures DistinctKeys(a + b)
  {
    forall i, j | 0 <= i < j < |a + b|
      ensures (a + b)[i].key != (a + b)[j].key
    {
      assert i < |a| ==> (a + b)[i] in a;
      assert j >= |a| ==> (a + b)[j] in b;
    }
  }

  lemma ConnectionKeysApart(name: string, n: nat, c: ConnectionConfig, cs: seq<ConnectionConfig>, key: string, other: string)
    requires Fits(c.remoteAddr) && forall d | d in cs :: Fits(d.remoteAddr) && d.remoteAddr != c.remoteAddr
    requires ConnectionsKey(key, name, n, [c]) && ConnectionsKey(other, name, n + 1, cs)
    ensures key != other
  {
    hide ConnectionKey, ConnectionProperty;
    if m: nat :| n <= m < n + |[c]| && key == ConnectionKey(name, m) {
      if k: nat :| n + 1 <= k < n + 1 + |cs| && other == ConnectionKey(name, k) {
        KeysAreDistinct(m, k, name);
      } else {
        var d, i: nat :| d in cs && i < 6 && other == ConnectionProperty(name, d.remoteAddr, PropertyWord(i));
        SectionKeysDiffer(name, m, d.remoteAddr, PropertyWord(i));
      }
    } else {
      var b, j: nat :| b in [c] && j < 6 && key == ConnectionProperty(name, b.remoteAddr, PropertyWord(j));
      if k: nat :| n + 1 <= k < n + 1 + |cs| && other == ConnectionKey(name, k) {
        SectionKeysDiffer(name, k, c.remoteAddr, PropertyWord(j));
      } else {
        var d, i: nat :| d in cs && i < 6 && other == ConnectionProperty(name, d.remoteAddr, PropertyWord(i));
        PropertyKeysDiffer(name, c.remoteAddr, PropertyWord(j), d.remoteAddr, PropertyWord(i));
      }
    }
  }

  lemma ConnectionsKeyGrows(key: string, name: string, n: nat, cs: seq<ConnectionConfig>)
    requires cs != [] && (ConnectionsKey(key, name, n, [cs[0]]) || ConnectionsKey(key, name, n + 1, cs[1..]))
    ensures ConnectionsKey(key, name, n, cs)
  {
  }

  lemma {:induction false} ConnectionsEntryKeys(name: string, n: nat, cs: seq<ConnectionConfig>)
    requires DistinctDestinations(cs) && forall c | c in cs :: Fits(c.remoteAddr)
    ensures DistinctKeys(ConnectionsEntries(name, n, cs))
    ensures forall e | e in ConnectionsEntries(name, n, cs) :: ConnectionsKey(e.key, name, n, cs)
    decreases |cs|
  {
    hide ConnectionEntries, ConnectionsKey, DistinctKeys;
    if cs == [] {
      NoEntriesDistinct();
    } else {
      var c, rest := cs[0], cs[1..];
      assert c in cs;
      var first, more := ConnectionEntries(name, n, c), ConnectionsEntries(name, n + 1, rest);
      ConnectionEntryKeys(name, n, c);
      ConnectionsEntryKeys(name, n + 1, rest);
      forall e, f | e in first && f in more
        ensures e.key != f.key
      {
        ConnectionKeysApart(name, n, c, rest, e.key, f.key);
      }
      DistinctConcat(first, more);
      forall e | e in first + more
        ensures ConnectionsKey(e.key, name, n, cs)
      {
        ConnectionsKeyGrows(e.key, name, n, cs);
      }
    }
  }

  lemma NoEntriesDistinct()
    ensures DistinctKeys([])
  {
  }

  /** The keys of a section, apart from the one that holds its name. */
  ghost predicate SectionKey(key: string, s: Section) {
    key == s.name + "-address" || key == s.name + "-is-master" || ConnectionsKey(key, s.name, 0, s.connections)
  }

  lemma SectionKeyHead(key: string, s: Section)
    requires SectionKey(key, s) && '-' !in s.name
    ensures Head(key) == s.name
  {
    hide Head, ConnectionKey, ConnectionProperty;
    SectionKeyHeads(s.name, 0, 0, "");
    if ConnectionsKey(key, s.name, 0, s.connections) {
      if m: nat :| 0 <= m < |s.connections| && key == ConnectionKey(s.name, m) {
        SectionKeyHeads(s.name, m, 0, "");
      } else {
        var d, i: nat :| d in s.connections && i < 6 && key == ConnectionProperty(s.name, d.remoteAddr, PropertyWord(i));
        SectionKeyHeads(s.name, 0, d.remoteAddr, PropertyWord(i));
      }
    }
  }

  lemma SectionKeyNoProxy(i: nat, key: string, s: Section)
    requires SectionKey(key, s) && '-' !in s.name
    ensures key != ProxyKey(i)
  {
    hide ProxyKey, ConnectionKey, ConnectionProperty;
    ProxyKeysDiffer(i, s.name, 0, 0, "");
    if ConnectionsKey(key, s.name, 0, s.connections) {
      if m: nat :| 0 <= m < |s.connections| && key == ConnectionKey(s.name, m) {
        ProxyKeysDiffer(i, s.name, m, 0, "");
      } else {
        var d, j: nat :| d in s.connections && j < 6 && key == ConnectionProperty(s.name, d.remoteAddr, PropertyWord(j));
        ProxyKeysDiffer(i, s.name, 0, d.remoteAddr, PropertyWord(j));
      }
    }
  }

  /** The keys of the connections are apart from the section's own, and from any further number. */
  lemma ConnectionsKeyApart(key: string, name: string, cs: seq<ConnectionConfig>)
    requires ConnectionsKey(key, name, 0, cs)
    ensures key != name + "-address" && key != name + "-is-master" && key != ConnectionKey(name, |cs|)
  {
    hide ConnectionKey, ConnectionProperty;
    if m: nat :| 0 <= m < |cs| && key == ConnectionKey(name, m) {
      SectionKeysDiffer(name, m, 0, "");
      KeysAreDistinct(m, |cs|, name);
    } else {
      var d, j: nat :| d in cs && j < 6 && key == ConnectionProperty(name, d.remoteAddr, PropertyWord(j));
      SectionKeysDiffer(name, |cs|, d.remoteAddr, PropertyWord(j));
    }
  }

  /** A section that can be written without ambiguity. */
  predicate Plain(s: Section) {
    '-' !in s.name && DistinctDestinations(s.connections) && forall c | c in s.connections :: Fits(c.remoteAddr)
  }

  lemma SectionEntryKeys(i: nat, s: Section)
    requires Plain(s)
    ensures DistinctKeys(SectionEntries(i, s))
    ensures forall e | e in SectionEntries(i, s) :: e.key == ProxyKey(i) || SectionKey(e.key, s)
  {
    hide ProxyKey, ConnectionsKey, ConnectionsEntries, DistinctKeys;
    var head := [Entry(ProxyKey(i), s.name),
                 Entry(s.name + "-address", SignedDecimal(s.config.localAddr)),
                 Entry(s.name + "-is-master", SignedDecimal(s.config.isMaster))];
    var more := ConnectionsEntries(s.name, 0, s.connections);
    ConnectionsEntryKeys(s.name, 0, s.connections);
    ProxyKeysDiffer(i, s.name, 0, 0, "");
    SectionKeysDiffer(s.name, 0, 0, "");
    ThreeDistinct(head);
    forall e, f | e in head && f in more
      ensures e.key != f.key
    {
      SectionKeyNoProxy(i, f.key, s);
      ConnectionsKeyApart(f.key, s.name, s.connections);
    }
    DistinctConcat(head, more);
  }

  lemma ThreeDistinct(es: seq<Entry>)
    requires |es| == 3 && es[0].key != es[1].key && es[0].key != es[2].key && es[1].key != es[2].key
    ensures DistinctKeys(es)
  {
  }

  /** The keys of a configuration whose sections are numbered from `i`. */
  ghost predicate ConfigKey(key: string, i: nat, sections: seq<Section>) {
    || (exists k: nat :: i <= k < i + |sections| && key == ProxyKey(k))
    || (exists s :: s in sections && SectionKey(key, s))
  }

  lemma {:induction false} ConfigEntryKeys(i: nat, sections: seq<Section>)
    requires DistinctNames(sections) && forall s | s in sections :: Plain(s)
    ensures DistinctKeys(ConfigEntries(i, sections))
    ensures forall e | e in ConfigEntries(i, sections) :: ConfigKey(e.key, i, sections)
    decreases |sections|
  {
    hide SectionEntries, SectionKey, Plain, DistinctKeys, ProxyKey;
    if sections == [] {
      NoEntriesDistinct();
    } else {
      var s, rest := sections[0], sections[1..];
      assert s in sections;
      var first, more := SectionEntries(i, s), ConfigEntries(i + 1, rest);
      SectionEntryKeys(i, s);
      ConfigEntryKeys(i + 1, rest);
      forall e, f | e in first && f in more
        ensures e.key != f.key
      {
        SectionsApart(i, s, rest, e.key, f.key);
      }
      DistinctConcat(first, more);
      forall e | e in first + more
        ensures ConfigKey(e.key, i, sections)
      {
        if e in first {
          assert i <= i < i + |sections|;
        } else if k: nat :| i + 1 <= k < i + 1 + |rest| && e.key == ProxyKey(k) {
          assert i <= k < i + |sections|;
        } else {
          var t :| t in rest && SectionKey(e.key, t);
          assert t in sections;
        }
      }
    }
  }

  lemma SectionsApart(i: nat, s: Section, rest: seq<Section>, key: string, other: string)
    requires Plain(s) && forall t | t in rest :: Plain(t) && t.name != s.name
    requires (key == ProxyKey(i) || SectionKey(key, s)) && ConfigKey(other, i + 1, rest)
    ensures key != other
  {
    hide ProxyKey, SectionKey;
    if k: nat :| i + 1 <= k < i + 1 + |rest| && other == ProxyKey(k) {
      if key == ProxyKey(i) {
        KeysAreDistinct(i, k, "");
      } else {
        SectionKeyNoProxy(k, key, s);
      }
    } else {
      var t :| t in rest && SectionKey(other, t);
      if key == ProxyKey(i) {
        SectionKeyNoProxy(i, other, t);
      } else {
        SectionKeyHead(key, s);
        SectionKeyHead(other, t);
      }
    }
  }

  /** Names without dashes, and destinations that differ within each section, make a configuration unambiguous. */
  lemma PlainNamesAreUnambiguous(sections: seq<Section>)
    requires DistinctNames(sections) && forall s | s in sections :: Plain(s)
    ensures Unambiguous(sections)
  {
    hide ConfigEntries, DistinctKeys, ProxyKey, SectionKey, ConnectionKey;
    var es := ConfigEntries(0, sections);
    ConfigEntryKeys(0, sections);
    forall e | e in es
      ensures e.key != ProxyKey(|sections|)
      ensures forall s | s in sections :: e.key != ConnectionKey(s.name, |s.connections|)
    {
      KeyIsNoStop(e.key, sections);
    }
  }

  lemma KeyIsNoStop(key: string, sections: seq<Section>)
    requires DistinctNames(sections) && (forall s | s in sections :: Plain(s)) && ConfigKey(key, 0, sections)
    ensures key != ProxyKey(|sections|)
    ensures forall s | s in sections :: key != ConnectionKey(s.name, |s.connections|)
  {
    hide ProxyKey, ConnectionKey, ConnectionsKey;
    if k: nat :| 0 <= k < |sections| && key == ProxyKey(k) {
      KeysAreDistinct(k, |sections|, "");
      forall s | s in sections
        ensures key != ConnectionKey(s.name, |s.connections|)
      {
        ProxyKeysDiffer(k, s.name, |s.connections|, 0, "");
      }
    } else {
      var t :| t in sections && SectionKey(key, t);
      SectionKeyNoProxy(|sections|, key, t);
      forall s | s in sections
        ensures key != ConnectionKey(s.name, |s.connections|)
      {
        SectionKeyHead(key, t);
        SectionKeyHeads(s.name, |s.connections|, 0, "");
        if s.name == t.name {
          assert s == t;
          SectionKeysDiffer(s.name, |s.connections|, 0, "");
          if ConnectionsKey(key, s.name, 0, s.connections) {
            ConnectionsKeyApart(key, s.name, s.connections);
          }
        }
      }
    }
  }

  // ----------------------------------------------------------------------- the file

  /** The syntax tree of a file with these entries, and its text. */
  function FileOf(es: seq<Entry>): Entries {
    if es == [] then NoEntries else Pair(es[0].key, Str(es[0].value), FileOf(es[1..]))
  }

  function ConfigText(sections: seq<Section>): string {
    Print(FileOf(ConfigEntries(0, sections)))
  }

  function LeavesOf(es: seq<Entry>): seq<Leaf> {
    seq(|es|, i requires 0 <= i < |es| => Leaf([es[i].key], es[i].value))
  }

  predicate EntryWritable(e: Entry) {
    IsIdentifier(e.key) && 0 as char !in e.value
  }

  lemma {:induction false} FileLeaves(es: seq<Entry>)
    requires forall e | e in es :: EntryWritable(e)
    ensures WellNamed(FileOf(es)) && Flatten([], FileOf(es)) == LeavesOf(es)
  {
    if es != [] {
      assert es[0] in es;
      FileLeaves(es[1..]);
      assert [] + [es[0].key] == [es[0].key];
      assert LeavesOf(es) == [Leaf([es[0].key], es[0].value)] + LeavesOf(es[1..]);
    }
  }

  lemma LeavesVisited(es: seq<Entry>)
    requires forall e | e in es :: EntryWritable(e)
    ensures VisitedAll(LeavesOf(es)) == es
  {
    forall i | 0 <= i < |es|
      ensures VisitedAll(LeavesOf(es))[i] == es[i]
    {
      assert es[i] in es;
      IdentifierIsProper(es[i].key);
      CStringWithoutNul(es[i].key);
      CStringWithoutNul(es[i].value);
      assert Visited(LeavesOf(es)[i]) == es[i];
    }
  }

  /** Names are identifiers, and port names have no terminator inside. */
  predicate Writable(s: Section) {
    IsIdentifier(s.name) && forall c | c in s.connections :: 0 as char !in c.portName
  }

  predicate IsTail(s: string) {
    forall c | c in s :: IsIdentChar(c)
  }

  /** The fixed parts of the keys are made of identifier characters. */
  lemma JointWords()
    ensures IsTail("-") && IsTail("-connection-") && IsTail("-address") && IsTail("-is-master")
    ensures IsIdentifier("proxy-")
  {
  }

  lemma PropertyWords()
    ensures IsTail("phys-port") && IsTail("timeout-app") && IsTail("timeout-link")
  {
  }

  lemma MorePropertyWords()
    ensures IsTail("frag-size") && IsTail("retries") && IsTail("use-confirms")
  {
  }

  lemma NumberIsTail(n: int)
    ensures IsTail(SignedDecimal(n)) && 0 as char !in SignedDecimal(n)
    ensures n >= 0 ==> IsTail(Decimal(n))
  {
    var m := if n < 0 then -n else n;
    DecimalDigits(m);
  }

  lemma TailExtends(name: string, tail: string)
    requires IsIdentifier(name) && IsTail(tail)
    ensures IsIdentifier(name + tail)
  {
  }

  lemma ConnectionWritable(name: string, n: nat, c: ConnectionConfig)
    requires IsIdentifier(name) && 0 as char !in c.portName
    ensures forall e | e in ConnectionEntries(name, n, c) :: EntryWritable(e)
  {
    hide IsIdentifier, IsTail, SignedDecimal, Decimal;
    JointWords();
    PropertyWords();
    MorePropertyWords();
    NumberIsTail(n);
    NumberIsTail(c.remoteAddr);
    NumberIsTail(c.appTimeout);
    NumberIsTail(c.linkTimeout);
    NumberIsTail(c.fragSize);
    NumberIsTail(c.numRetry);
    NumberIsTail(c.useConfirms);
    TailExtends(name, "-connection-");
    TailExtends(name + "-connection-", Decimal(n));
    TailExtends(name, "-");
    TailExtends(name + "-", SignedDecimal(c.remoteAddr));
    var stem := name + "-" + SignedDecimal(c.remoteAddr) + "-";
    TailExtends(name + "-" + SignedDecimal(c.remoteAddr), "-");
    TailExtends(stem, "phys-port");
    TailExtends(stem, "timeout-app");
    TailExtends(stem, "timeout-link");
    TailExtends(stem, "frag-size");
    TailExtends(stem, "retries");
    TailExtends(stem, "use-confirms");
  }

  lemma {:induction false} ConnectionsWritable(name: string, n: nat, cs: seq<ConnectionConfig>)
    requires IsIdentifier(name) && forall c | c in cs :: 0 as char !in c.portName
    ensures forall e | e in ConnectionsEntries(name, n, cs) :: EntryWritable(e)
    decreases |cs|
  {
    hide ConnectionEntries, EntryWritable, IsIdentifier;
    if cs != [] {
      assert cs[0] in cs;
      ConnectionWritable(name, n, cs[0]);
      ConnectionsWritable(name, n + 1, cs[1..]);
    }
  }

  lemma SectionWritable(i: nat, s: Section)
    requires Writable(s)
    ensures forall e | e in SectionEntries(i, s) :: EntryWritable(e)
  {
    hide IsIdentifier, IsTail, SignedDecimal, Decimal, ConnectionsEntries;
    JointWords();
    NumberIsTail(i);
    NumberIsTail(s.config.localAddr);
    NumberIsTail(s.config.isMaster);
    TailExtends("proxy-", Decimal(i));
    TailExtends(s.name, "-address");
    TailExtends(s.name, "-is-master");
    NameHasNoNul(s.name);
    ConnectionsWritable(s.name, 0, s.connections);
  }

  lemma NameHasNoNul(name: string)
    requires IsIdentifier(name)
    ensures 0 as char !in name
  {
  }

  lemma {:induction false} ConfigWritable(i: nat, sections: seq<Section>)
    requires forall s | s in sections :: Writable(s)
    ensures forall e | e in ConfigEntries(i, sections) :: EntryWritable(e)
    decreases |sections|
  {
    hide SectionEntries, EntryWritable, Writable;
    if sections != [] {
      assert sections[0] in sections;
      SectionWritable(i, sections[0]);
      ConfigWritable(i + 1, sections[1..]);
    }
  }

  /** From sections to the bytes of a file and back. */
  lemma TextIsRead(sections: seq<Section>)
    requires AllFit(sections) && Unambiguous(sections) && forall s | s in sections :: Writable(s)
    ensures ParseText(ConfigText(sections)).ok
    ensures Complete(FileConfig(ConfigText(sections)), 0)
    ensures SectionsFrom(FileConfig(ConfigText(sections)), 0) == sections
  {
    hide ConfigEntries, AllFit, Unambiguous, Writable, SectionsFrom, Complete, Flatten, Print, WellNamed;
    var es := ConfigEntries(0, sections);
    ConfigWritable(0, sections);
    FileLeaves(es);
    PrintThenParse(FileOf(es));
    LeavesVisited(es);
    WrittenIsRead(sections);
  }

  // ------------------------------------------------------------------------ the bus

  /** The connections of these sections, owned by the proxies from number `owner` on. */
  function ConnectionViews(owner: nat, sections: seq<Section>): seq<ConnectionView>
    decreases |sections|
  {
    if sections == [] then [] else Owned(owner, sections[0].connections) + ConnectionViews(owner + 1, sections[1..])
  }

  function Owned(owner: int, cs: seq<ConnectionConfig>): seq<ConnectionView> {
    seq(|cs|, i requires 0 <= i < |cs| => ConnectionView(owner, cs[i]))
  }

  function ProxyViews(sections: seq<Section>): seq<ProxyView> {
    seq(|sections|, i requires 0 <= i < |sections| => ProxyView(sections[i].name, sections[i].config))
  }

  /** Names differ. */
  predicate DistinctNames(sections: seq<Section>) {
    forall i, j | 0 <= i < j < |sections| :: sections[i].name != sections[j].name
  }

  /** No connection repeats a route of its own section, or of another. */
  predicate DistinctDestinations(cs: seq<ConnectionConfig>) {
    forall i, j | 0 <= i < j < |cs| :: cs[i].remoteAddr != cs[j].remoteAddr
  }

  predicate SharesRoute(s: Section, t: Section) {
    s.config.localAddr == t.config.localAddr &&
    exists c, d :: c in s.connections && d in t.connections && c.remoteAddr == d.remoteAddr
  }

  predicate DistinctRoutes(sections: seq<Section>) {
    && (forall s | s in sections :: DistinctDestinations(s.connections))
    && forall i, j | 0 <= i < j < |sections| :: !SharesRoute(sections[i], sections[j])
  }

  /** Entries without a route yet are all created, in order, and nothing else becomes routable. */
  lemma {:induction false} NewConnectionsAdded(st: LoadState, src: int, cs: seq<ConnectionConfig>)
    requires GoodState(st) && IdHasAddress(st, src) && DistinctDestinations(cs)
    requires forall c | c in cs :: !Routable(st.bus, src, c.remoteAddr)
    ensures var r := AddConnections(st, src, cs);
            && GoodState(r) && r.bus == st.bus.(connections := st.bus.connections + Owned(st.proxyId, cs))
            && r.proxyId == st.proxyId
            && forall a, b :: Routable(r.bus, a, b) ==>
                 Routable(st.bus, a, b) || (a == src && exists c | c in cs :: c.remoteAddr == b)
    decreases |cs|
  {
    hide Routable, UniqueRoutes;
    if cs == [] {
      assert st.bus.connections + [] == st.bus.connections;
    } else {
      assert cs[0] in cs;
      var next := AddConnection(st, src, cs[0]);
      forall a, b
        ensures Routable(next.bus, a, b) <==> Routable(st.bus, a, b) || (a == src && cs[0].remoteAddr == b)
        ensures GoodState(next)
      {
        RouteAdded(st.bus, st.proxyId, cs[0], a, b);
      }
      RouteAdded(st.bus, st.proxyId, cs[0], src, src);
      NewConnectionsAdded(next, src, cs[1..]);
      assert st.bus.connections + Owned(st.proxyId, cs)
          == st.bus.connections + [ConnectionView(st.proxyId, cs[0])] + Owned(st.proxyId, cs[1..]);
    }
  }

  predicate Unserved(bus: BusView, s: Section) {
    !HasProxy(bus, s.name) && forall c | c in s.connections :: !Routable(bus, s.config.localAddr, c.remoteAddr)
  }

  lemma NewTurn(st: LoadState, s: Section)
    requires GoodState(st) && Unserved(st.bus, s) && DistinctDestinations(s.connections)
    ensures var r := Turn(st, s);
            && GoodState(r)
            && r.bus == BusView(st.bus.proxies + [ProxyView(s.name, s.config)],
                                st.bus.connections + Owned(|st.bus.proxies|, s.connections))
    ensures forall t | Unserved(st.bus, t) && t.name != s.name && !SharesRoute(s, t) :: Unserved(Turn(st, s).bus, t)
  {
    var entered := EnterProxy(st, s);
    RoutesKeptByProxy(st.bus, ProxyView(s.name, s.config));
    NewConnectionsAdded(entered, s.config.localAddr, s.connections);
    forall t | Unserved(st.bus, t) && t.name != s.name && !SharesRoute(s, t)
      ensures Unserved(Turn(st, s).bus, t)
    {
      TurnNames(st, s, t.name);
      forall d | d in t.connections
        ensures !Routable(Turn(st, s).bus, t.config.localAddr, d.remoteAddr)
      {
        assert s.config.localAddr == t.config.localAddr ==> forall c | c in s.connections :: c.remoteAddr != d.remoteAddr;
      }
    }
  }

  /** Loading new sections with distinct names and routes builds exactly what they list, in order. */
  lemma {:induction false} NewSectionsBuilt(st: LoadState, sections: seq<Section>)
    requires GoodState(st) && DistinctNames(sections) && DistinctRoutes(sections)
    requires forall s | s in sections :: Unserved(st.bus, s)
    ensures Load(st, sections).bus == BusView(st.bus.proxies + ProxyViews(sections),
                                              st.bus.connections + ConnectionViews(|st.bus.proxies|, sections))
    decreases |sections|
  {
    hide Turn, Unserved, GoodState, SharesRoute;
    if sections == [] {
      assert st.bus.proxies + [] == st.bus.proxies && st.bus.connections + [] == st.bus.connections;
    } else {
      var s, rest := sections[0], sections[1..];
      assert s in sections;
      NewTurn(st, s);
      var next := Turn(st, s);
      forall t | t in rest
        ensures Unserved(next.bus, t)
      {
        var i :| 0 <= i < |rest| && rest[i] == t;
        assert sections[i + 1] == t;
      }
      NewSectionsBuilt(next, rest);
      assert st.bus.proxies + ProxyViews(sections)
          == st.bus.proxies + [ProxyView(s.name, s.config)] + ProxyViews(rest);
      assert st.bus.connections + ConnectionViews(|st.bus.proxies|, sections)
          == st.bus.connections + Owned(|st.bus.proxies|, s.connections) + ConnectionViews(|next.bus.proxies|, rest);
    }
  }

  /**
   The whole way: a configuration that is written to a file and loaded on an empty
   bus gives exactly its proxies and connections, in order and field by field.
   */
  lemma ConfigRoundTrip(sections: seq<Section>)
    requires AllFit(sections) && Unambiguous(sections) && forall s | s in sections :: Writable(s)
    requires DistinctNames(sections) && DistinctRoutes(sections)
    ensures ParseText(ConfigText(sections)).ok && Complete(FileConfig(ConfigText(sections)), 0)
    ensures LoadFile(BusView([], []), ConfigText(sections)).bus
            == BusView(ProxyViews(sections), ConnectionViews(0, sections))
  {
    hide ParseText, ConfigText, FileConfig, Complete, SectionsFrom, Load, AllFit, Unambiguous, Writable;
    TextIsRead(sections);
    var empty := Fresh(BusView([], []));
    NewSectionsBuilt(empty, sections);
    assert [] + ProxyViews(sections) == ProxyViews(sections);
    assert [] + ConnectionViews(0, sections) == ConnectionViews(0, sections);
  }
}
