/**
 * The decision rules beneath the SQL Server detection: the instance name
 * carried by a service name, the WMI namespace chosen from the child
 * namespaces found, and the version classification of the engine found
 * there. What WMI reports is given to the model as input.
 */
module SqlExpressChecks {
  import opened Outcomes

  /** The SQLVersion enumeration. */
  datatype SqlVersion = NoVersion | SQL2005 | SQL2008 | Later

  /** The exceptions that escape the detection code. */
  datatype SqlError =
    | EmmaException(message: string, inner: string)  // wraps an unexpected ManagementException
    | VersionFormat                                  // new Version(...) rejected the version text

  function ToUpperChar(c: char): char
  {
    if 'a' <= c <= 'z' then (c as int - 32) as char else c
  }

  /**
   * Upper-casing: no lower-case letter is left, each lower-case letter turns
   * into the letter 32 code points below it, and every other character stays.
   */
  function ToUpper(s: string): (u: string)
    ensures |u| == |s|
    ensures forall i :: 0 <= i < |u| ==> !('a' <= u[i] <= 'z')
    ensures forall i :: 0 <= i < |s| && !('a' <= s[i] <= 'z') ==> u[i] == s[i]
    ensures forall i :: 0 <= i < |s| && 'a' <= s[i] <= 'z' ==> u[i] as int == s[i] as int - 32
  {
    seq(|s|, i requires 0 <= i < |s| => ToUpperChar(s[i]))
  }

  /** Upper-casing an upper-cased string changes nothing. */
  lemma ToUpperIdempotent(s: string)
    ensures ToUpper(ToUpper(s)) == ToUpper(s)
  {
  }

  /**
   * String comparison with StringComparison.OrdinalIgnoreCase: equal
   * lengths, and at every position the two characters are equal or are the
   * lower- and upper-case forms of one letter.
   */
  function EqualsIgnoreCase(a: string, b: string): (r: bool)
    ensures r <==> |a| == |b| && forall i :: 0 <= i < |a| ==>
      a[i] == b[i] || ('a' <= a[i] <= 'z' && b[i] as int == a[i] as int - 32) ||
      ('a' <= b[i] <= 'z' && a[i] as int == b[i] as int - 32)
    ensures a == b ==> r
  {
    ToUpper(a) == ToUpper(b)
  }

  /** `part` occurs in `s` starting at position `k`. */
  predicate OccursAt(s: string, part: string, k: int)
  {
    0 <= k && k + |part| <= |s| && s[k..k + |part|] == part
  }

  /** String.Contains: `part` occurs in `s` as a contiguous substring. */
  function Contains(s: string, part: string): (r: bool)
    ensures r <==> exists k :: OccursAt(s, part, k)
    decreases |s|
  {
    if |s| < |part| then false
    else if s[..|part|] == part then
      assert OccursAt(s, part, 0);
      true
    else
      var found := Contains(s[1..], part);
      forall k
        ensures OccursAt(s[1..], part, k) <==> OccursAt(s, part, k + 1)
      {
        if 0 <= k && k + 1 + |part| <= |s| {
          assert s[1..][k..k + |part|] == s[k + 1..k + 1 + |part|];
        }
      }
      assert !OccursAt(s, part, 0);
      assert (exists k :: OccursAt(s, part, k)) ==> exists k :: OccursAt(s[1..], part, k) by {
        if exists k :: OccursAt(s, part, k) {
          var k :| OccursAt(s, part, k);
          assert OccursAt(s[1..], part, k - 1);
        }
      }
      found
  }

  /** String.IndexOf for a character: the first position holding `c`, or -1. */
  function IndexOf(s: string, c: char): (i: int)
    ensures -1 <= i < |s|
    ensures i == -1 <==> c !in s
    ensures 0 <= i ==> s[i] == c && c !in s[..i]
  {
    if s == [] then -1
    else if s[0] == c then 0
    else
      var k := IndexOf(s[1..], c);
      assert s == [s[0]] + s[1..];
      assert 0 <= k ==> s[..k + 1] == [s[0]] + s[1..][..k];
      if k == -1 then -1 else k + 1
  }

  /** IndexOf finds the position before which `c` does not occur. */
  lemma IndexOfFirst(s: string, c: char, k: nat)
    requires k < |s| && s[k] == c && c !in s[..k]
    ensures IndexOf(s, c) == k
  {
  }

  /** String.Substring(start, length). */
  function Substring(s: string, start: int, length: int): (r: string)
    requires 0 <= start && 0 <= length && start + length <= |s|
    ensures |r| == length
    ensures forall k :: 0 <= k < length ==> r[k] == s[start + k]
  {
    s[start..start + length]
  }

  const DEFAULT_INSTANCE := "MSSQLSERVER"

  /**
   * GetInstanceNameFromServiceName: null or empty gives "", the default
   * instance's service name (any letter case) is returned as it is, and any
   * other name gives what follows its first '$' (the whole name if none).
   */
  function GetInstanceNameFromServiceName(serviceName: Option<string>): (r: string)
    ensures serviceName.None? || serviceName.value == "" ==> r == ""
    ensures serviceName.Some? && serviceName.value != "" && EqualsIgnoreCase(serviceName.value, DEFAULT_INSTANCE) ==>
      r == serviceName.value
    ensures serviceName.Some? && !EqualsIgnoreCase(serviceName.value, DEFAULT_INSTANCE) && '$' !in serviceName.value ==>
      r == serviceName.value
    ensures serviceName.Some? && !EqualsIgnoreCase(serviceName.value, DEFAULT_INSTANCE) && '$' in serviceName.value ==>
      exists k :: 0 <= k < |serviceName.value| && serviceName.value[k] == '$' && '$' !in serviceName.value[..k] &&
        r == serviceName.value[k + 1..]
  {
    match serviceName
    case None => ""
    case Some(name) =>
      if name == "" then ""
      else if EqualsIgnoreCase(name, DEFAULT_INSTANCE) then name
      else
        var dollar := IndexOf(name, '$');
        var instance := Substring(name, dollar + 1, |name| - dollar - 1);
        assert instance == name[dollar + 1..];
        assert dollar == -1 ==> instance == name;
        instance
  }

  /** The default instance keeps the caller's letter case. */
  lemma DefaultInstanceAnyCase()
    ensures GetInstanceNameFromServiceName(Some("mssqlserver")) == "mssqlserver"
  {
    assert ToUpper("mssqlserver") == "MSSQLSERVER";
    assert ToUpper(DEFAULT_INSTANCE) == "MSSQLSERVER";
  }

  /** A named instance's service name gives the part after its first '$'. */
  lemma NamedInstance(name: string, k: nat)
    requires k < |name| && name[k] == '$' && '$' !in name[..k]
    requires !EqualsIgnoreCase(name, DEFAULT_INSTANCE)
    ensures GetInstanceNameFromServiceName(Some(name)) == name[k + 1..]
  {
  }

  lemma NamedInstanceExample()
    ensures GetInstanceNameFromServiceName(Some("MSSQL$SQLEXPRESS")) == "SQLEXPRESS"
  {
    var name := "MSSQL$SQLEXPRESS";
    assert |ToUpper(name)| != |ToUpper(DEFAULT_INSTANCE)|;
    assert name[..5] == "MSSQL";
    NamedInstance(name, 5);
    assert name[6..] == "SQLEXPRESS";
  }

  const WMI_ROOT := "root\\Microsoft\\sqlserver"
  const KATMAI_NAMESPACE := "ComputerManagement10"
  const YUKON_NAMESPACE := "ComputerManagement"

  /**
   * The namespace GetCorrectWmiNameSpace settles on from the children found
   * under the root: ComputerManagement10 over ComputerManagement, and the
   * empty string when neither is there.
   */
  function ChooseNamespace(namespaces: seq<string>): (r: string)
    ensures KATMAI_NAMESPACE in namespaces ==> r == WMI_ROOT + "\\" + KATMAI_NAMESPACE
    ensures KATMAI_NAMESPACE !in namespaces && YUKON_NAMESPACE in namespaces ==> r == WMI_ROOT + "\\" + YUKON_NAMESPACE
    ensures r == "" <==> KATMAI_NAMESPACE !in namespaces && YUKON_NAMESPACE !in namespaces
    ensures r != "" ==> exists child :: child in namespaces && r == WMI_ROOT + "\\" + child
  {
    if |namespaces| > 0 then
      if KATMAI_NAMESPACE in namespaces then WMI_ROOT + "\\" + KATMAI_NAMESPACE
      else if YUKON_NAMESPACE in namespaces then WMI_ROOT + "\\" + YUKON_NAMESPACE
      else ""
    else ""
  }

  /**
   * What enumerating the instances of __namespace under the root gave: the
   * names read before the enumeration ended, and the message of the
   * ManagementException that ended it early, if one did.
   */
  datatype NamespaceScan = NamespaceScan(names: seq<string>, failure: Option<string>)

  const INVALID_NAMESPACE := "INVALID NAMESPACE"

  /**
   * The scan failed with a ManagementException whose upper-cased message
   * does not contain INVALID NAMESPACE anywhere.
   */
  function Rethrows(scan: NamespaceScan): (r: bool)
    ensures r <==> (scan.failure.Some? &&
                    forall k :: !OccursAt(ToUpper(scan.failure.value), INVALID_NAMESPACE, k))
  {
    scan.failure.Some? && !Contains(ToUpper(scan.failure.value), INVALID_NAMESPACE)
  }

  const NAMESPACE_ERROR := "Error determining installed version of SQL"

  /**
   * GetCorrectWmiNameSpace: collect the child namespace names, swallow an
   * invalid-namespace failure, rethrow any other, then choose.
   */
  method GetCorrectWmiNameSpace(scan: NamespaceScan) returns (r: Result<string, SqlError>)
    ensures Rethrows(scan) ==> r == Err(EmmaException(NAMESPACE_ERROR, scan.failure.value))
    ensures !Rethrows(scan) ==> r == Ok(ChooseNamespace(scan.names))
  {
    var namespaces: seq<string> := [];
    for i := 0 to |scan.names|
      invariant namespaces == scan.names[..i]
    {
      namespaces := namespaces + [scan.names[i]];
    }
    assert namespaces == scan.names;
    if scan.failure.Some? && !Contains(ToUpper(scan.failure.value), INVALID_NAMESPACE) {
      return Err(EmmaException(NAMESPACE_ERROR, scan.failure.value));
    }
    r := Ok(ChooseNamespace(namespaces));
  }

  /** The version property of an engine: the major number, or text Version cannot parse. */
  datatype VersionText = Parsed(major: nat) | Unparsable

  /** One engine service reported by the query in the chosen namespace. */
  datatype Engine = Engine(serviceName: string, version: VersionText)

  /**
   * The classification the three checks evidently intend: above 10 is
   * Later, 10 is SQL2008, 9 is SQL2005, anything else none.
   */
  function IntendedVersion(major: nat): (v: SqlVersion)
    ensures v == Later <==> major > 10
    ensures v == SQL2008 <==> major == 10
    ensures v == SQL2005 <==> major == 9
    ensures v == NoVersion <==> major < 9
  {
    if major > 10 then Later
    else if major == 10 then SQL2008
    else if major == 9 then SQL2005
    else NoVersion
  }

  /**
   * What the version checks yield for a major number, as written: the
   * `Later` set for a major above 10 is overwritten by the second check,
   * so the result agrees with the intended one only up to 10.
   */
  function ObservedVersion(major: nat): (v: SqlVersion)
    ensures major <= 10 ==> v == IntendedVersion(major)
    ensures major > 10 ==> v == SQL2008 && IntendedVersion(major) == Later
    ensures v != Later
  {
    if major == 9 then SQL2005
    else if major >= 10 then SQL2008
    else NoVersion
  }

  /** The two classifications part exactly above 10, e.g. at 11. */
  lemma PrecedenceQuirk(major: nat)
    ensures ObservedVersion(major) != IntendedVersion(major) <==> major > 10
    ensures ObservedVersion(11) == SQL2008 && IntendedVersion(11) == Later
  {
  }

  /**
   * GetSQLVersion: NoVersion without a namespace or without engines;
   * otherwise the classification of the last engine's version.
   */
  method GetSQLVersion(scan: NamespaceScan, engines: seq<Engine>) returns (r: Result<SqlVersion, SqlError>)
    ensures Rethrows(scan) ==> r == Err(EmmaException(NAMESPACE_ERROR, scan.failure.value))
    ensures !Rethrows(scan) && (ChooseNamespace(scan.names) == "" || engines == []) ==> r == Ok(NoVersion)
    ensures !Rethrows(scan) && ChooseNamespace(scan.names) != "" && engines != [] ==>
      r == match engines[|engines| - 1].version
           case Parsed(major) => Ok(ObservedVersion(major))
           case Unparsable => Err(VersionFormat)
    ensures r != Ok(Later)
  {
    var retVal := NoVersion;
    var correctNamespace := GetCorrectWmiNameSpace(scan);
    if correctNamespace.Err? {
      return Err(correctNamespace.error);
    }
    if correctNamespace.value != "" && |engines| > 0 {
      var serviceName := "";
      var version := Unparsable;
      for i := 0 to |engines|
        invariant i == 0 ==> version == Unparsable
        invariant 0 < i ==> version == engines[i - 1].version
      {
        serviceName := engines[i].serviceName;
        version := engines[i].version;
      }
      if version.Unparsable? {
        return Err(VersionFormat);
      }
      var major := version.major;
      // && binds tighter than || in both of the first two conditions
      if (major > 10 && retVal == NoVersion) || retVal == SQL2005 {
        retVal := Later;
      }
      if (major == 10 && retVal == NoVersion) || retVal == SQL2005 || retVal == Later {
        retVal := SQL2008;
      }
      if major == 9 && retVal == NoVersion {
        retVal := SQL2005;
      }
    }
    r := Ok(retVal);
  }
}
