/**
  The argument vectors `HsdsApp.run` launches: process 0 is the service node,
  process 1 the rangeget proxy, process i >= 2 the datanode whose
  `node_number` is i - 2. Every vector ends with the same five common arguments.
 */
module Launch {
  import opened Wrappers
  import opened Text

  /** What `run` reads from the instance to build the vectors. */
  datatype LaunchConfig = LaunchConfig(
    dnUrlsArg: string,
    rangegetUrl: string,
    endpoint: string,
    username: Option<string>,
    password: Option<string>)

  /** Python truthiness of the optional credential: present and non-empty. */
  predicate Truthy(o: Option<string>)
  {
    o.Some? && o.value != ""
  }

  const UsernameFlag := "--hs_username="
  const PasswordFlag := "--hs_password="
  const NodeNumberFlag := "--node_number="

  /** `common_args`, in the order they are appended. */
  function CommonArgs(cfg: LaunchConfig): seq<string>
  {
    ["--standalone",
     "--dn_urls=" + cfg.dnUrlsArg,
     "--rangeget_url=" + cfg.rangegetUrl,
     "--hsds_endpoint=" + cfg.endpoint,
     "--use_socket"]
  }

  function ServiceNodeArgs(cfg: LaunchConfig): seq<string>
  {
    ["hsds-servicenode", "--log_prefix=sn "]
    + (if Truthy(cfg.username) then [UsernameFlag + cfg.username.value] else [])
    + (if Truthy(cfg.password) then [PasswordFlag + cfg.password.value] else [])
    + ["--sn_url=" + cfg.endpoint, "--logfile=sn1.log"]
  }

  function RangegetArgs(): seq<string>
  {
    ["hsds-rangeget", "--log_prefix=rg "]
  }

  function DatanodeArgs(cfg: LaunchConfig, nodeNumber: nat): seq<string>
  {
    ["hsds-datanode",
     "--log_prefix=dn" + NatToString(nodeNumber + 1) + " ",
     "--dn_urls=" + cfg.dnUrlsArg,
     NodeNumberFlag + NatToString(nodeNumber)]
  }

  /** The role-specific part of process i's arguments. */
  function RoleArgs(cfg: LaunchConfig, i: nat): seq<string>
  {
    if i == 0 then ServiceNodeArgs(cfg)
    else if i == 1 then RangegetArgs()
    else DatanodeArgs(cfg, i - 2)
  }

  /** `pargs` of process i once `common_args` is appended. */
  function ArgVector(cfg: LaunchConfig, i: nat): seq<string>
  {
    RoleArgs(cfg, i) + CommonArgs(cfg)
  }

  /** The vectors of processes 0 to count - 1. */
  function ArgVectors(cfg: LaunchConfig, count: nat): (vs: seq<seq<string>>)
    ensures |vs| == count
  {
    seq(count, i requires 0 <= i < count => ArgVector(cfg, i))
  }

  /**
    What every vector looks like: its role marker first, the common arguments
    last and in order; the datanode's log prefix, datanode list and node number
    at positions 1 to 3.
   */
  lemma VectorLayout(cfg: LaunchConfig, i: nat)
    ensures var v := ArgVector(cfg, i);
      |v| >= 5 && v[|v| - 5..] == CommonArgs(cfg) &&
      v[0] == (if i == 0 then "hsds-servicenode" else if i == 1 then "hsds-rangeget" else "hsds-datanode")
    ensures i >= 2 ==> var v := ArgVector(cfg, i);
      |v| == 9 &&
      v[1] == "--log_prefix=dn" + NatToString(i - 1) + " " &&
      v[2] == "--dn_urls=" + cfg.dnUrlsArg &&
      v[3] == NodeNumberFlag + NatToString(i - 2)
  {
    var v := ArgVector(cfg, i);
    assert v[|v| - 5..] == CommonArgs(cfg);
  }

  /** The third character of every argument other than a node number (all are at least three long). */
  lemma ThirdCharNotN(cfg: LaunchConfig, i: nat, j: nat)
    requires j < |ArgVector(cfg, i)|
    requires !(i >= 2 && j == 3)
    ensures |ArgVector(cfg, i)[j]| >= 3 && ArgVector(cfg, i)[j][2] != 'n'
  {
    var v := ArgVector(cfg, i);
    var r := RoleArgs(cfg, i);
    if j >= |r| {
      assert v[j] == CommonArgs(cfg)[j - |r|];
    } else if i == 0 {
      var a := v[j];
      assert a == ServiceNodeArgs(cfg)[j];
    }
  }

  /**
    Node numbers are exactly 0 to count - 3, one per datanode: the argument
    `--node_number=k` appears in vector i if and only if i == k + 2.
   */
  lemma NodeNumbersExact(cfg: LaunchConfig, i: nat, k: nat)
    ensures NodeNumberFlag + NatToString(k) in ArgVector(cfg, i) <==> i == k + 2
  {
    var v := ArgVector(cfg, i);
    var a := NodeNumberFlag + NatToString(k);
    if i == k + 2 {
      VectorLayout(cfg, i);
    } else if a in v {
      var j :| 0 <= j < |v| && v[j] == a;
      if i >= 2 && j == 3 {
        VectorLayout(cfg, i);
        var b := NatToString(i - 2);
        assert NatToString(k) == a[|NodeNumberFlag|..];
        assert b == (NodeNumberFlag + b)[|NodeNumberFlag|..];
        NatToStringInjective(k, i - 2);
      } else {
        ThirdCharNotN(cfg, i, j);
      }
    }
  }

  /** An argument that differs from `p` at position k does not start with `p`. */
  lemma DiffersAt(a: string, p: string, k: nat)
    requires k < |a| && k < |p| && a[k] != p[k]
    ensures !StartsWith(a, p)
  {
    if |p| <= |a| {
      assert a[..|p|][k] == a[k];
    }
  }

  predicate IsCredentialFlag(flag: string)
  {
    flag == UsernameFlag || flag == PasswordFlag
  }

  /** No argument of `args` starts with `flag`. */
  predicate NoneStartWith(args: seq<string>, flag: string)
  {
    forall j :: 0 <= j < |args| ==> !StartsWith(args[j], flag)
  }

  /** None of the common arguments, nor the fixed parts of the role arguments, is a credential. */
  lemma FixedArgsCarryNoCredential(cfg: LaunchConfig, nodeNumber: nat, flag: string)
    requires IsCredentialFlag(flag)
    ensures NoneStartWith(CommonArgs(cfg), flag)
    ensures NoneStartWith(["hsds-servicenode", "--log_prefix=sn "], flag)
    ensures NoneStartWith(["--sn_url=" + cfg.endpoint, "--logfile=sn1.log"], flag)
    ensures NoneStartWith(RangegetArgs(), flag)
    ensures NoneStartWith(DatanodeArgs(cfg, nodeNumber), flag)
  {
    var c := CommonArgs(cfg);
    forall j | 0 <= j < |c| ensures !StartsWith(c[j], flag) {
      assert j == 0 || j == 1 || j == 2 || j == 3 || j == 4;
      if j == 3 { DiffersAt(c[j], flag, 4); } else { DiffersAt(c[j], flag, 2); }
    }
    var s := ["hsds-servicenode", "--log_prefix=sn "];
    forall j | 0 <= j < |s| ensures !StartsWith(s[j], flag) {
      DiffersAt(s[j], flag, if j == 0 then 0 else 2);
    }
    var t := ["--sn_url=" + cfg.endpoint, "--logfile=sn1.log"];
    forall j | 0 <= j < |t| ensures !StartsWith(t[j], flag) {
      DiffersAt(t[j], flag, 2);
    }
    var g := RangegetArgs();
    forall j | 0 <= j < |g| ensures !StartsWith(g[j], flag) {
      DiffersAt(g[j], flag, if j == 0 then 0 else 2);
    }
    var d := DatanodeArgs(cfg, nodeNumber);
    forall j | 0 <= j < |d| ensures !StartsWith(d[j], flag) {
      assert j == 0 || j == 1 || j == 2 || j == 3;
      if j == 0 { DiffersAt(d[j], flag, 0); } else { DiffersAt(d[j], flag, 2); }
    }
  }

  /** Only the service node's vector can carry a credential. */
  lemma CredentialsOnlyOnServiceNode(cfg: LaunchConfig, i: nat, flag: string)
    requires 1 <= i && IsCredentialFlag(flag)
    ensures NoneStartWith(ArgVector(cfg, i), flag)
  {
    FixedArgsCarryNoCredential(cfg, if i >= 2 then i - 2 else 0, flag);
  }

  /**
    The service node's vector carries `--hs_username=...` (resp. the password)
    exactly when the value is truthy, and its role part always ends with
    `--sn_url=<endpoint>` and `--logfile=sn1.log`.
   */
  lemma ServiceNodeCredentials(cfg: LaunchConfig)
    ensures Truthy(cfg.username) <==> !NoneStartWith(ArgVector(cfg, 0), UsernameFlag)
    ensures Truthy(cfg.password) <==> !NoneStartWith(ArgVector(cfg, 0), PasswordFlag)
    ensures Truthy(cfg.username) ==> UsernameFlag + cfg.username.value in ArgVector(cfg, 0)
    ensures Truthy(cfg.password) ==> PasswordFlag + cfg.password.value in ArgVector(cfg, 0)
    ensures var r := RoleArgs(cfg, 0);
      |r| >= 4 && r[|r| - 2..] == ["--sn_url=" + cfg.endpoint, "--logfile=sn1.log"]
  {
    var v := ArgVector(cfg, 0);
    var r := RoleArgs(cfg, 0);
    assert r[|r| - 2..] == ["--sn_url=" + cfg.endpoint, "--logfile=sn1.log"];
    var u := if Truthy(cfg.username) then [UsernameFlag + cfg.username.value] else [];
    var p := if Truthy(cfg.password) then [PasswordFlag + cfg.password.value] else [];
    var head := ["hsds-servicenode", "--log_prefix=sn "];
    var tail := ["--sn_url=" + cfg.endpoint, "--logfile=sn1.log"];
    assert v == head + u + p + tail + CommonArgs(cfg);
    FixedArgsCarryNoCredential(cfg, 0, UsernameFlag);
    FixedArgsCarryNoCredential(cfg, 0, PasswordFlag);
    if Truthy(cfg.username) {
      var a := UsernameFlag + cfg.username.value;
      assert v[2] == a && a[..|UsernameFlag|] == UsernameFlag;
      DiffersAt(a, PasswordFlag, 5);
    } else {
      assert NoneStartWith(p, UsernameFlag) by {
        if p != [] { DiffersAt(p[0], UsernameFlag, 5); }
      }
    }
    if Truthy(cfg.password) {
      var a := PasswordFlag + cfg.password.value;
      assert v[|head| + |u|] == a && a[..|PasswordFlag|] == PasswordFlag;
    } else {
      assert NoneStartWith(u, PasswordFlag) by {
        if u != [] { DiffersAt(u[0], PasswordFlag, 5); }
      }
    }
  }

  /** The `if i == 0 / elif i == 1 / else` part of the loop of `HsdsApp.run`. */
  method BuildRoleArgs(cfg: LaunchConfig, i: nat) returns (pargs: seq<string>)
    ensures pargs == RoleArgs(cfg, i)
  {
    if i == 0 {
      pargs := ["hsds-servicenode", "--log_prefix=sn "];
      if Truthy(cfg.username) {
        pargs := pargs + [UsernameFlag + cfg.username.value];
      }
      if Truthy(cfg.password) {
        pargs := pargs + [PasswordFlag + cfg.password.value];
      }
      pargs := pargs + ["--sn_url=" + cfg.endpoint];
      pargs := pargs + ["--logfile=sn1.log"];
    } else if i == 1 {
      pargs := ["hsds-rangeget", "--log_prefix=rg "];
    } else {
      var nodeNumber := i - 2;
      pargs := ["hsds-datanode", "--log_prefix=dn" + NatToString(nodeNumber + 1) + " "];
      pargs := pargs + ["--dn_urls=" + cfg.dnUrlsArg];
      pargs := pargs + [NodeNumberFlag + NatToString(nodeNumber)];
    }
  }

  /**
    The argument-building part of `HsdsApp.run`: `common_args` first, then for
    each i in `range(count)` the role arguments extended by `common_args`.
   */
  method BuildArgVectors(cfg: LaunchConfig, count: int) returns (vectors: seq<seq<string>>)
    ensures vectors == ArgVectors(cfg, RangeLen(count))
  {
    var common := ["--standalone"];
    common := common + ["--dn_urls=" + cfg.dnUrlsArg];
    common := common + ["--rangeget_url=" + cfg.rangegetUrl];
    common := common + ["--hsds_endpoint=" + cfg.endpoint];
    common := common + ["--use_socket"];
    assert common == CommonArgs(cfg);
    vectors := [];
    for i := 0 to RangeLen(count)
      invariant vectors == ArgVectors(cfg, i)
    {
      var pargs := BuildRoleArgs(cfg, i);
      pargs := pargs + common;
      assert ArgVectors(cfg, i + 1) == ArgVectors(cfg, i) + [ArgVector(cfg, i)];
      vectors := vectors + [pargs];
    }
  }
}
