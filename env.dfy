/** `--env KEY=VALUE` arguments of the deploy command, turned into the
    `{name, value}` records that Portainer expects. */
module Env {
  import opened Wrappers

  datatype EnvVar = EnvVar(name: string, value: string)

  /** The original argument text an entry was parsed from. */
  function Joined(v: EnvVar): string {
    v.name + "=" + v.value
  }

  /** `entry.split('=', 1)`: the text before the first '=' and the text after
      it, or None when the entry holds no '='. */
  function SplitAtFirstEquals(entry: string): (r: Option<EnvVar>)
    ensures r.None? <==> '=' !in entry
    ensures r.Some? ==> '=' !in r.value.name && Joined(r.value) == entry
  {
    if |entry| == 0 then None
    else if entry[0] == '=' then Some(EnvVar("", entry[1..]))
    else
      match SplitAtFirstEquals(entry[1..])
      case None => None
      case Some(v) =>
        assert entry == [entry[0]] + entry[1..];
        Some(EnvVar([entry[0]] + v.name, v.value))
  }

  /** The split is determined by the two facts SplitAtFirstEquals promises:
      a key without '=' that recombines with its value into the entry. */
  lemma SplitAtFirstEqualsUnique(entry: string, v: EnvVar)
    requires '=' !in v.name && Joined(v) == entry
    ensures SplitAtFirstEquals(entry) == Some(v)
  {
    var r := SplitAtFirstEquals(entry).value;
    // entry[|key|] is the first '=' of entry for both splits.
    assert entry[|v.name|] == '=';
    assert entry[|r.name|] == '=';
    assert forall i :: 0 <= i < |v.name| ==> entry[i] == v.name[i];
    assert forall i :: 0 <= i < |r.name| ==> entry[i] == r.name[i];
    assert |r.name| == |v.name|;
    assert r.name == entry[..|r.name|] == v.name;
    assert r.value == entry[|r.name| + 1..] == v.value;
  }

  /** The records built from the entries, in order, skipping every entry
      without '='. */
  function ParsedEnv(entries: seq<string>): (vars: seq<EnvVar>)
    ensures |vars| <= |entries|
    ensures forall i :: 0 <= i < |vars| ==> '=' !in vars[i].name
  {
    if |entries| == 0 then []
    else
      ParsedEnv(entries[..|entries| - 1]) +
      match SplitAtFirstEquals(entries[|entries| - 1])
      case Some(v) => [v]
      case None => []
  }

  /** Parsing a concatenation parses each part in turn: the records keep the
      order of the arguments. */
  lemma {:induction false} ParsedEnvAppend(a: seq<string>, b: seq<string>)
    ensures ParsedEnv(a + b) == ParsedEnv(a) + ParsedEnv(b)
    decreases |b|
  {
    if |b| > 0 {
      var b' := b[..|b| - 1];
      assert (a + b)[..|a + b| - 1] == a + b';
      assert (a + b)[|a + b| - 1] == b[|b| - 1];
      ParsedEnvAppend(a, b');
    } else {
      assert a + b == a;
    }
  }

  /** One argument alone yields its split when it holds '=', nothing otherwise. */
  lemma ParsedEnvSingle(entry: string)
    ensures '=' in entry ==> ParsedEnv([entry]) == [SplitAtFirstEquals(entry).value]
    ensures '=' !in entry ==> ParsedEnv([entry]) == []
  {
    assert [entry][..0] == [];
  }

  /** Every record recombines into one of the arguments, and every argument
      that holds '=' is represented by a record. */
  lemma {:induction false} ParsedEnvSound(entries: seq<string>)
    ensures forall v :: v in ParsedEnv(entries) ==> Joined(v) in entries
    ensures forall e :: e in entries && '=' in e ==>
      exists v :: v in ParsedEnv(entries) && Joined(v) == e
  {
    if |entries| > 0 {
      var init := entries[..|entries| - 1];
      var last := entries[|entries| - 1];
      assert entries == init + [last];
      ParsedEnvSound(init);
      ParsedEnvAppend(init, [last]);
      ParsedEnvSingle(last);
      forall e | e in entries && '=' in e
        ensures exists v :: v in ParsedEnv(entries) && Joined(v) == e
      {
        if e in init {
          var v :| v in ParsedEnv(init) && Joined(v) == e;
          assert v in ParsedEnv(entries);
        } else {
          assert e == last;
          assert SplitAtFirstEquals(e).value in ParsedEnv(entries);
        }
      }
    }
  }

  /** When every argument holds '=', nothing is dropped and the i-th record
      comes from the i-th argument. */
  lemma {:induction false} ParsedEnvKeepsAll(entries: seq<string>)
    requires forall i :: 0 <= i < |entries| ==> '=' in entries[i]
    ensures |ParsedEnv(entries)| == |entries|
    ensures forall i :: 0 <= i < |entries| ==> Joined(ParsedEnv(entries)[i]) == entries[i]
  {
    if |entries| > 0 {
      var init := entries[..|entries| - 1];
      ParsedEnvKeepsAll(init);
    }
  }

  /** Arguments without '=' contribute nothing. */
  lemma {:induction false} ParsedEnvDropsAll(entries: seq<string>)
    requires forall i :: 0 <= i < |entries| ==> '=' !in entries[i]
    ensures ParsedEnv(entries) == []
  {
    if |entries| > 0 {
      ParsedEnvDropsAll(entries[..|entries| - 1]);
    }
  }

  /** The list sent for the optional, repeatable `--env` argument: empty when
      the argument was never given. */
  function EnvArgs(env: Option<seq<string>>): seq<EnvVar> {
    match env
    case None => []
    case Some(entries) => ParsedEnv(entries)
  }

  /** The loop of `cmd_deploy` that builds `env_vars`. */
  method ParseEnv(env: Option<seq<string>>) returns (envVars: seq<EnvVar>)
    ensures envVars == EnvArgs(env)
    ensures env.None? ==> envVars == []
  {
    envVars := [];
    if env.Some? && |env.value| > 0 {
      var entries := env.value;
      var i := 0;
      while i < |entries|
        invariant 0 <= i <= |entries|
        invariant envVars == ParsedEnv(entries[..i])
      {
        var entry := entries[i];
        assert entries[..i + 1][..i] == entries[..i];
        if '=' in entry {
          var kv := SplitAtFirstEquals(entry);
          envVars := envVars + [kv.value];
        }
        i := i + 1;
      }
      assert entries[..i] == entries;
    }
  }
}
