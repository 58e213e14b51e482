/**
 * How the PTCR transport reads its device name: the name is split on ':';
 * a first field "tcp" asks for a TCP connection to tcp:address:port, and
 * any other name is the path of a serial port.
 */
module PtcrAddress {
  import opened Wrappers

  /** The fields of `s` between its ':' separators, empty fields kept. */
  function Split(s: string): (fs: seq<string>)
    ensures |fs| >= 1
    ensures forall i | 0 <= i < |fs| :: ':' !in fs[i]
  {
    if s == [] then [""]
    else
      var rest := Split(s[1..]);
      if s[0] == ':' then [""] + rest
      else [[s[0]] + rest[0]] + rest[1..]
  }

  /** The fields joined back together with ':' between them. */
  function Join(fs: seq<string>): string
    requires |fs| >= 1
  {
    if |fs| == 1 then fs[0] else fs[0] + ":" + Join(fs[1..])
  }

  /** Splitting and joining again gives back the name. */
  lemma {:induction false} JoinSplit(s: string)
    ensures Join(Split(s)) == s
  {
    if s != [] {
      var rest := Split(s[1..]);
      JoinSplit(s[1..]);
      if s[0] == ':' {
        assert Split(s)[1..] == rest;
        assert s == [s[0]] + s[1..];
      } else {
        var fs := Split(s);
        if |rest| == 1 {
          assert fs == [[s[0]] + rest[0]];
        } else {
          assert fs[1..] == rest[1..];
          assert Join(rest) == rest[0] + ":" + Join(rest[1..]);
        }
        assert s == [s[0]] + s[1..];
      }
    }
  }

  /** Fields without ':' are what splitting their join gives back. */
  lemma {:induction false} SplitJoin(fs: seq<string>)
    requires |fs| >= 1 && forall i | 0 <= i < |fs| :: ':' !in fs[i]
    ensures Split(Join(fs)) == fs
    decreases |fs|, |fs[0]|
  {
    if |fs| == 1 {
      SplitField(fs[0], []);
    } else {
      SplitJoin(fs[1..]);
      SplitField(fs[0], fs[1..]);
      assert [fs[0]] + fs[1..] == fs;
    }
  }

  /** A field without ':' in front of ":" and some more fields. */
  lemma {:induction false} SplitField(f: string, more: seq<string>)
    requires ':' !in f
    requires more != [] ==> Split(Join(more)) == more
    ensures more == [] ==> Split(f) == [f]
    ensures more != [] ==> Split(f + ":" + Join(more)) == [f] + more
  {
    var s := if more == [] then f else f + ":" + Join(more);
    if f == [] {
      if more != [] {
        assert s == [':'] + Join(more);
        assert s[1..] == Join(more);
      }
    } else {
      var t := if more == [] then f[1..] else f[1..] + ":" + Join(more);
      assert s[0] == f[0] && s[1..] == t;
      SplitField(f[1..], more);
      assert [f[0]] + f[1..] == f;
    }
  }

  /** What the name asks for. */
  datatype Endpoint = Tcp(host: string, port: string) | Serial(device: string)

  /** The exception the transport throws for a "tcp" name of the wrong shape. */
  datatype AddressError = ExpectedTcpAddressPort(name: string)

  /** The transport constructor's choice between a TCP socket and a serial port. */
  function Classify(name: string): (r: Result<Endpoint, AddressError>)
    ensures r.Err? <==> Split(name)[0] == "tcp" && |Split(name)| != 3
    ensures r.Ok? && r.value.Tcp? ==> [r.value.host, r.value.port] == Split(name)[1..]
    ensures r.Ok? && r.value.Serial? ==> r.value.device == name
  {
    var v := Split(name);
    if v[0] == "tcp" then
      if |v| != 3 then Err(ExpectedTcpAddressPort(name)) else Ok(Tcp(v[1], v[2]))
    else Ok(Serial(name))
  }

  /** The first field is "tcp" exactly when the name is "tcp" or starts with "tcp:". */
  lemma FirstFieldTcp(name: string)
    ensures Split(name)[0] == "tcp" <==> "tcp" <= name && (|name| == 3 || name[3] == ':')
  {
    if Split(name)[0] == "tcp" {
      FirstField(name);
    }
    if "tcp" <= name && (|name| == 3 || name[3] == ':') {
      PrefixField(name, 3);
      assert name[..3] == "tcp";
    }
  }

  /** The first field is the name up to its first ':', or the whole name when it has none. */
  lemma {:induction false} FirstField(name: string)
    ensures var k := |Split(name)[0]|;
            && k <= |name| && name[..k] == Split(name)[0]
            && (k == |name| || name[k] == ':')
  {
    if name != [] && name[0] != ':' {
      FirstField(name[1..]);
      var f := Split(name[1..])[0];
      assert name[..1 + |f|] == [name[0]] + name[1..][..|f|];
    }
  }

  /** The first field of a name whose first ':' is at `k` (or which has none and is k long). */
  lemma {:induction false} PrefixField(name: string, k: nat)
    requires k <= |name| && (forall j | 0 <= j < k :: name[j] != ':') && (k == |name| || name[k] == ':')
    ensures Split(name)[0] == name[..k]
    decreases k
  {
    if k > 0 {
      PrefixField(name[1..], k - 1);
      assert name[..k] == [name[0]] + name[1..k];
    }
  }

  /** tcp:address:port with no ':' inside address or port names that host and port. */
  lemma ClassifyTcp(host: string, port: string)
    requires ':' !in host && ':' !in port
    ensures Classify("tcp:" + host + ":" + port) == Ok(Tcp(host, port))
  {
    var fs := ["tcp", host, port];
    assert Join(fs[2..]) == port;
    assert Join(fs[1..]) == host + ":" + port;
    assert Join(fs) == "tcp:" + host + ":" + port;
    SplitJoin(fs);
  }

  /** A name that is neither "tcp" nor starts with "tcp:" is a serial device named by the whole string. */
  lemma ClassifySerial(name: string)
    requires !("tcp" <= name && (|name| == 3 || name[3] == ':'))
    ensures Classify(name) == Ok(Serial(name))
  {
    FirstFieldTcp(name);
  }
}
