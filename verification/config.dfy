/**
 * The deployment configuration check (bin/getAppConfig.ts): read seven
 * environment variables, collect in declaration order the ones that are
 * undefined or empty, and fail listing them, or return the record.
 */
module AppConfig {
  import opened Wrappers

  /** The record's keys, in declaration order. */
  const Keys: seq<string> :=
    ["deploymentEnv", "awsRegion", "apiDrivers", "apiPosition", "apiSessions", "bucketName", "stateMachineArn"]

  /** The environment variable each key is read from, index for index. */
  const VariableNames: seq<string> :=
    ["DEPLOYMENT_ENV", "CDK_DEFAULT_REGION", "API_DRIVERS", "API_POSITION", "API_SESSIONS", "BUCKET_NAME", "STATE_MACHINE_ARN"]

  const MessagePrefix: string := "Missing or invalid environment variables: "

  const Separator: string := ", "

  /** The process environment. */
  type Environment = map<string, string>

  /** The extracted record `envVars`; a field is None when its variable is undefined. */
  datatype EnvVars = EnvVars(
    deploymentEnv: Option<string>,
    awsRegion: Option<string>,
    apiDrivers: Option<string>,
    apiPosition: Option<string>,
    apiSessions: Option<string>,
    bucketName: Option<string>,
    stateMachineArn: Option<string>)

  /** The configuration returned on success: the same seven fields, all defined. */
  datatype Config = Config(
    deploymentEnv: string,
    awsRegion: string,
    apiDrivers: string,
    apiPosition: string,
    apiSessions: string,
    bucketName: string,
    stateMachineArn: string)

  function Lookup(env: Environment, name: string): Option<string> {
    if name in env then Some(env[name]) else None
  }

  /** The object literal of lines 17-25. */
  function Extract(env: Environment): (v: EnvVars)
    ensures forall i :: 0 <= i < |Keys| ==> Values(v)[i] == Lookup(env, VariableNames[i])
  {
    EnvVars(
      Lookup(env, "DEPLOYMENT_ENV"),
      Lookup(env, "CDK_DEFAULT_REGION"),
      Lookup(env, "API_DRIVERS"),
      Lookup(env, "API_POSITION"),
      Lookup(env, "API_SESSIONS"),
      Lookup(env, "BUCKET_NAME"),
      Lookup(env, "STATE_MACHINE_ARN"))
  }

  /** The values of `Object.entries(envVars)`, in the order of `Keys`. */
  function Values(v: EnvVars): (r: seq<Option<string>>)
    ensures |r| == |Keys|
  {
    [v.deploymentEnv, v.awsRegion, v.apiDrivers, v.apiPosition, v.apiSessions, v.bucketName, v.stateMachineArn]
  }

  /** `value === undefined || value === ''`. */
  predicate Missing(value: Option<string>) {
    value.None? || value.value == ""
  }

  /** The filter-then-map over the entries: the keys whose value is missing, in order. */
  function MissingKeys(keys: seq<string>, values: seq<Option<string>>): (r: seq<string>)
    requires |keys| == |values|
    ensures forall k :: k in r ==> k in keys
    ensures |r| <= |keys|
    decreases |keys|
  {
    if |keys| == 0 then []
    else (if Missing(values[0]) then [keys[0]] else []) + MissingKeys(keys[1..], values[1..])
  }

  /** `a` is `b` with some elements left out (order kept). */
  predicate IsSubsequence(a: seq<string>, b: seq<string>)
    decreases |b|
  {
    |a| == 0 || (|b| > 0 && (if a[0] == b[0] then IsSubsequence(a[1..], b[1..]) else IsSubsequence(a, b[1..])))
  }

  /** A key is listed exactly when its value is missing, and the list keeps declaration order. */
  lemma {:induction false} MissingKeysExact(keys: seq<string>, values: seq<Option<string>>)
    requires |keys| == |values|
    ensures forall i :: 0 <= i < |keys| && Missing(values[i]) ==> keys[i] in MissingKeys(keys, values)
    ensures forall k :: k in MissingKeys(keys, values) ==>
      exists i :: 0 <= i < |keys| && keys[i] == k && Missing(values[i])
    ensures IsSubsequence(MissingKeys(keys, values), keys)
    decreases |keys|
  {
    if |keys| > 0 {
      var rest := MissingKeys(keys[1..], values[1..]);
      MissingKeysExact(keys[1..], values[1..]);
      var r := MissingKeys(keys, values);
      forall i | 0 <= i < |keys| && Missing(values[i]) ensures keys[i] in r {
        if i > 0 { assert keys[1..][i - 1] == keys[i] && values[1..][i - 1] == values[i]; }
      }
      forall k | k in r ensures exists i :: 0 <= i < |keys| && keys[i] == k && Missing(values[i]) {
        if k in rest {
          var i :| 0 <= i < |keys[1..]| && keys[1..][i] == k && Missing(values[1..][i]);
          assert keys[i + 1] == k && values[i + 1] == values[1..][i];
        }
      }
      SubsequenceCons(rest, keys, Missing(values[0]));
    }
  }

  /** Prepending the head or not keeps a subsequence of the tail a subsequence of the whole. */
  lemma {:induction false} SubsequenceCons(a: seq<string>, b: seq<string>, take: bool)
    requires |b| > 0 && IsSubsequence(a, b[1..])
    ensures IsSubsequence((if take then [b[0]] else []) + a, b)
  {
    if take {
      assert ([b[0]] + a)[1..] == a;
    } else {
      assert [] + a == a;
      SubsequenceSkip(a, b);
    }
  }

  /** A subsequence of the tail is a subsequence of the whole. */
  lemma {:induction false} SubsequenceSkip(a: seq<string>, b: seq<string>)
    requires |b| > 0 && IsSubsequence(a, b[1..])
    ensures IsSubsequence(a, b)
    decreases |a| + |b|, 1
  {
    if |a| > 0 && a[0] == b[0] {
      SubsequenceTail(a, b[1..]);
    }
  }

  /** Dropping the head of a subsequence keeps a subsequence. */
  lemma {:induction false} SubsequenceTail(a: seq<string>, b: seq<string>)
    requires |a| > 0 && IsSubsequence(a, b)
    ensures IsSubsequence(a[1..], b)
    decreases |a| + |b|, 0
  {
    if a[0] == b[0] {
      if |b[1..]| > 0 {
        SubsequenceSkip(a[1..], b);
      } else {
        assert |a[1..]| == 0;
      }
    } else {
      SubsequenceTail(a, b[1..]);
      SubsequenceSkip(a[1..], b);
    }
  }

  /** `missingVars.join(', ')`: parts without commas can be read back from the joined list. */
  function Join(parts: seq<string>): (r: string)
    ensures |parts| == 0 ==> r == ""
    ensures |parts| > 0 && (forall p :: p in parts ==> ',' !in p) ==> Split(r) == parts
    decreases |parts|
  {
    if |parts| == 0 then ""
    else if |parts| == 1 then
      assert parts == [parts[0]];
      parts[0]
    else
      var tail := Join(parts[1..]);
      SplitStep(parts[0], tail);
      assert parts == [parts[0]] + parts[1..];
      assert forall p :: p in parts[1..] ==> p in parts;
      parts[0] + Separator + tail
  }

  /** The first index of a comma in `s`, or |s|. */
  function FindComma(s: string): (i: nat)
    ensures i <= |s|
    ensures i < |s| ==> s[i] == ','
    ensures forall j :: 0 <= j < i ==> s[j] != ','
  {
    if |s| == 0 || s[0] == ',' then 0 else 1 + FindComma(s[1..])
  }

  /** Splits a comma-separated list back into its parts; every list has at least one. */
  function Split(s: string): (r: seq<string>)
    ensures |r| > 0
    ensures ',' !in s ==> r == [s]
    decreases |s|
  {
    var i := FindComma(s);
    if i == |s| then [s]
    else if i + 1 < |s| && s[i + 1] == ' ' then [s[..i]] + Split(s[i + 2..])
    else [s[..i]] + Split(s[i + 1..])
  }

  /** A comma-free part followed by the separator splits off as the first part. */
  lemma SplitStep(head: string, tail: string)
    ensures ',' !in head ==> Split(head + Separator + tail) == [head] + Split(tail)
  {
    if ',' !in head {
      var s := head + Separator + tail;
      var i := FindComma(s);
      forall j | 0 <= j < |head| ensures s[j] != ',' { assert s[j] == head[j]; }
      assert s[|head|] == ',';
      assert i == |head|;
      assert s[..i] == head;
      assert s[i + 1] == ' ';
      assert s[i + 2..] == tail;
    }
  }

  /** The error getAppConfig throws for a non-empty list of missing keys. */
  function ErrorMessage(missing: seq<string>): (m: string)
    ensures |m| >= |MessagePrefix| && m[..|MessagePrefix|] == MessagePrefix
    ensures |missing| > 0 && (forall p :: p in missing ==> ',' !in p) ==> Split(m[|MessagePrefix|..]) == missing
  {
    var m := MessagePrefix + Join(missing);
    assert m[|MessagePrefix|..] == Join(missing);
    m
  }

  /** getAppConfig: the configuration, or the error naming every missing variable's key. */
  function GetAppConfig(env: Environment): (r: Result<Config, string>)
    ensures var missing := MissingKeys(Keys, Values(Extract(env)));
      && (r.Failure? <==> |missing| > 0)
      && (r.Failure? ==> r.error == MessagePrefix + Join(missing))
    ensures r.Success? ==>
      && Values(Extract(env)) == Values(Present(r.value))
      && forall i :: 0 <= i < |Keys| ==> VariableNames[i] in env && env[VariableNames[i]] != ""
  {
    var v := Extract(env);
    var missing := MissingKeys(Keys, Values(v));
    MissingKeysExact(Keys, Values(v));
    if |missing| > 0 then Failure(ErrorMessage(missing))
    else Success(Config(
      v.deploymentEnv.value, v.awsRegion.value, v.apiDrivers.value, v.apiPosition.value,
      v.apiSessions.value, v.bucketName.value, v.stateMachineArn.value))
  }

  /** The configuration seen as an extracted record with every field defined. */
  function Present(c: Config): EnvVars {
    EnvVars(
      Some(c.deploymentEnv), Some(c.awsRegion), Some(c.apiDrivers), Some(c.apiPosition),
      Some(c.apiSessions), Some(c.bucketName), Some(c.stateMachineArn))
  }

  /** The seven keys are distinct and none holds a comma. */
  lemma KeysWellFormed()
    ensures forall i, j :: 0 <= i < j < |Keys| ==> Keys[i] != Keys[j]
    ensures forall p :: p in Keys ==> ',' !in p
  {
  }

  /** A key is listed exactly when its variable is undefined or empty. */
  lemma MissingKeysOfEnv(env: Environment)
    ensures var missing := MissingKeys(Keys, Values(Extract(env)));
      forall i :: 0 <= i < |Keys| ==> (Keys[i] in missing <==> Missing(Lookup(env, VariableNames[i])))
  {
    var values := Values(Extract(env));
    var missing := MissingKeys(Keys, values);
    MissingKeysExact(Keys, values);
    KeysWellFormed();
    forall i | 0 <= i < |Keys| && Keys[i] in missing ensures Missing(values[i]) {
      var j :| 0 <= j < |Keys| && Keys[j] == Keys[i] && Missing(values[j]);
      assert j == i;
    }
  }

  /**
   * The error names exactly the keys whose variable is undefined or empty,
   * in declaration order, and the list can be read back out of the message.
   */
  lemma ErrorListsMissing(env: Environment)
    ensures var r := GetAppConfig(env);
      r.Failure? ==>
      && |r.error| >= |MessagePrefix| && r.error[..|MessagePrefix|] == MessagePrefix
      && var listed := Split(r.error[|MessagePrefix|..]);
      && (forall i :: 0 <= i < |Keys| ==> (Keys[i] in listed <==> Missing(Lookup(env, VariableNames[i]))))
      && IsSubsequence(listed, Keys)
  {
    if GetAppConfig(env).Failure? {
      var missing := MissingKeys(Keys, Values(Extract(env)));
      MissingKeysExact(Keys, Values(Extract(env)));
      MissingKeysOfEnv(env);
      KeysWellFormed();
      var msg := GetAppConfig(env).error;
      assert msg == ErrorMessage(missing);
    }
  }
}
