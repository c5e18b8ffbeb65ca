// Cluster selectors: identifiers, ARNs and endpoints, parsed by splitting and
// checked part by part (src/target.rs), and the target made of one (src/cli.rs).

module Selectors {
  import opened Wrappers

  // ---- Splitting and joining. ----

  /** The pieces between separators; one empty piece for the empty text. */
  function Split(s: string, separator: char): (r: seq<string>)
    ensures r != []
  {
    if s == "" then [""]
    else
      var rest := Split(s[1..], separator);
      if s[0] == separator then [""] + rest else [[s[0]] + rest[0]] + rest[1..]
  }

  function Join(parts: seq<string>, separator: char): string
    requires parts != []
  {
    if |parts| == 1 then parts[0] else parts[0] + [separator] + Join(parts[1..], separator)
  }

  lemma {:induction false} JoinSplit(s: string, separator: char)
    ensures Join(Split(s, separator), separator) == s
    ensures forall part :: part in Split(s, separator) ==> separator !in part
  {
    if s != "" {
      JoinSplit(s[1..], separator);
      var rest := Split(s[1..], separator);
      var parts := Split(s, separator);
      if s[0] == separator {
        assert parts[1..] == rest;
        assert s == "" + [separator] + s[1..];
      } else {
        assert parts[1..] == rest[1..];
        assert s == [s[0]] + s[1..];
        if |rest| > 1 {
          assert [s[0]] + (rest[0] + [separator] + Join(rest[1..], separator))
              == ([s[0]] + rest[0]) + [separator] + Join(rest[1..], separator);
        }
      }
    }
  }

  lemma {:induction false} SplitPiece(part: string, separator: char, rest: string)
    requires separator !in part
    ensures Split(part + [separator] + rest, separator) == [part] + Split(rest, separator)
    decreases |part|
  {
    var s := part + [separator] + rest;
    if part == "" {
      assert s[1..] == rest;
    } else {
      SplitPiece(part[1..], separator, rest);
      assert s[1..] == part[1..] + [separator] + rest;
      assert [part[0]] + part[1..] == part;
    }
  }

  lemma {:induction false} SplitWhole(part: string, separator: char)
    requires separator !in part
    ensures Split(part, separator) == [part]
    decreases |part|
  {
    if part != "" {
      SplitWhole(part[1..], separator);
      assert [part[0]] + part[1..] == part;
    }
  }

  lemma {:induction false} SplitJoin(parts: seq<string>, separator: char)
    requires parts != [] && forall part :: part in parts ==> separator !in part
    ensures Split(Join(parts, separator), separator) == parts
  {
    if |parts| == 1 {
      SplitWhole(parts[0], separator);
    } else {
      SplitJoin(parts[1..], separator);
      SplitPiece(parts[0], separator, Join(parts[1..], separator));
    }
  }

  lemma {:induction false} CharOfSplit(s: string, separator: char, k: nat)
    requires k < |s|
    ensures s[k] == separator || exists part :: part in Split(s, separator) && s[k] in part
  {
    var rest := Split(s[1..], separator);
    var parts := Split(s, separator);
    if k > 0 {
      CharOfSplit(s[1..], separator, k - 1);
      if s[k] != separator {
        var part :| part in rest && s[k] in part;
        if s[0] == separator {
          assert parts[1..] == rest;
        } else if part == rest[0] {
          assert s[k] in parts[0];
        } else {
          assert part in rest[1..] && parts[1..] == rest[1..];
        }
      }
    } else if s[0] != separator {
      assert s[0] in parts[0];
    }
  }

  // ---- The checks. ----

  predicate IsDigitChar(c: char) {
    '0' <= c <= '9'
  }

  predicate IsLowerOrDigit(c: char) {
    'a' <= c <= 'z' || IsDigitChar(c)
  }

  predicate AllLowerOrDigit(s: string) {
    forall k :: 0 <= k < |s| ==> IsLowerOrDigit(s[k])
  }

  predicate AllDigits(s: string) {
    forall k :: 0 <= k < |s| ==> IsDigitChar(s[k])
  }

  predicate IsIdentifier(s: string) {
    |s| == 26 && AllLowerOrDigit(s)
  }

  predicate IsAccountId(s: string) {
    |s| == 12 && AllDigits(s)
  }

  predicate IsRegion(s: string) {
    && 0 < |s| <= 20
    && var parts := Split(s, '-');
       && 3 <= |parts|
       && (forall k :: 0 <= k < |parts| - 1 ==> parts[k] != "" && AllLowerOrDigit(parts[k]))
       && parts[|parts| - 1] != "" && AllDigits(parts[|parts| - 1])
  }

  predicate IsPartition(s: string) {
    || s == "aws" || s == "aws-cn" || s == "aws-us-gov" || s == "aws-iso" || s == "aws-iso-b"
    || s == "aws-iso-e" || s == "aws-iso-f"
  }

  predicate PartitionMatchesRegion(partition: string, region: string) {
    if partition == "aws" then
      && !("cn-" <= region) && !("us-gov-" <= region) && !("us-iso-" <= region)
      && !("us-isob-" <= region) && !("eu-isoe-" <= region) && !("us-isof-" <= region)
    else if partition == "aws-cn" then "cn-" <= region
    else if partition == "aws-us-gov" then "us-gov-" <= region
    else if partition == "aws-iso" then "us-iso-" <= region
    else if partition == "aws-iso-b" then "us-isob-" <= region
    else if partition == "aws-iso-e" then "eu-isoe-" <= region
    else if partition == "aws-iso-f" then "us-isof-" <= region
    else false
  }

  // ---- Parsing. ----

  datatype Selector = Selector(
    identifier: string,
    region: Option<string>,
    accountId: Option<string>,
    partition: Option<string>,
    arn: Option<string>,
    endpoint: Option<string>)

  datatype ParseResult = Ok(selector: Selector) | Malformed

  const CLUSTER: string := "cluster/"

  function ParseArn(input: string): Option<ParseResult> {
    if !("arn:" <= input) then None
    else
      var parts := Split(input, ':');
      if |parts| != 6 || parts[0] != "arn" || parts[2] != "dsql" || !(CLUSTER <= parts[5]) then Some(Malformed)
      else
        var identifier := parts[5][|CLUSTER|..];
        if !IsPartition(parts[1]) || !IsRegion(parts[3]) || !PartitionMatchesRegion(parts[1], parts[3])
           || !IsAccountId(parts[4]) || !IsIdentifier(identifier)
        then Some(Malformed)
        else Some(Ok(Selector(identifier, Some(parts[3]), Some(parts[4]), Some(parts[1]), Some(input), None)))
  }

  function ParseEndpoint(input: string): Option<ParseResult> {
    if '.' !in input then None
    else
      var labels := Split(input, '.');
      if |labels| != 5 || labels[1] != "dsql" || labels[3] != "on" || labels[4] != "aws" then Some(Malformed)
      else if !IsIdentifier(labels[0]) || !IsRegion(labels[2]) then Some(Malformed)
      else Some(Ok(Selector(labels[0], Some(labels[2]), None, None, None, Some(input))))
  }

  function ParseClusterSelector(input: string): ParseResult {
    match ParseArn(input)
    case Some(result) => result
    case None =>
      match ParseEndpoint(input)
      case Some(result) => result
      case None =>
        if IsIdentifier(input) then Ok(Selector(input, None, None, None, None, None)) else Malformed
  }

  // ---- Printing. ----

  function PrintArn(partition: string, region: string, accountId: string, identifier: string): string {
    Join(["arn", partition, "dsql", region, accountId, CLUSTER + identifier], ':')
  }

  function PrintEndpoint(identifier: string, region: string): string {
    Join([identifier, "dsql", region, "on", "aws"], '.')
  }

  predicate ArnParts(partition: string, region: string, accountId: string, identifier: string) {
    && IsPartition(partition) && IsRegion(region) && PartitionMatchesRegion(partition, region)
    && IsAccountId(accountId) && IsIdentifier(identifier)
  }

  /** The three forms a selector can have, as the fields that spell it. */
  datatype Form =
    | Bare(identifier: string)
    | Arn(partition: string, region: string, accountId: string, identifier: string)
    | Endpoint(identifier: string, region: string)
  {
    predicate WellFormed() {
      match this
      case Bare(identifier) => IsIdentifier(identifier)
      case Arn(partition, region, accountId, identifier) => ArnParts(partition, region, accountId, identifier)
      case Endpoint(identifier, region) => IsIdentifier(identifier) && IsRegion(region)
    }

    function Print(): string {
      match this
      case Bare(identifier) => identifier
      case Arn(partition, region, accountId, identifier) => PrintArn(partition, region, accountId, identifier)
      case Endpoint(identifier, region) => PrintEndpoint(identifier, region)
    }

    /** What a parser must recover from the printed form. */
    function Fields(): Selector {
      match this
      case Bare(identifier) => Selector(identifier, None, None, None, None, None)
      case Arn(partition, region, accountId, identifier) =>
        Selector(identifier, Some(region), Some(accountId), Some(partition), Some(Print()), None)
      case Endpoint(identifier, region) => Selector(identifier, Some(region), None, None, None, Some(Print()))
    }
  }

  lemma RegionChars(region: string, c: char)
    requires IsRegion(region) && !IsLowerOrDigit(c) && c != '-'
    ensures c !in region
  {
    forall k | 0 <= k < |region|
      ensures region[k] != c
    {
      CharOfSplit(region, '-', k);
      if region[k] != '-' {
        var part :| part in Split(region, '-') && region[k] in part;
        assert AllLowerOrDigit(part);
      }
    }
  }

  lemma PlainChars(s: string, c: char)
    requires AllLowerOrDigit(s) && !IsLowerOrDigit(c)
    ensures c !in s
  {
  }

  lemma PartitionChars(partition: string)
    requires IsPartition(partition)
    ensures ':' !in partition
  {
  }

  lemma ArnSplits(partition: string, region: string, accountId: string, identifier: string)
    requires ArnParts(partition, region, accountId, identifier)
    ensures Split(PrintArn(partition, region, accountId, identifier), ':')
         == ["arn", partition, "dsql", region, accountId, CLUSTER + identifier]
  {
    var parts := ["arn", partition, "dsql", region, accountId, CLUSTER + identifier];
    PartitionChars(partition);
    RegionChars(region, ':');
    PlainChars(accountId, ':');
    PlainChars(identifier, ':');
    SplitJoin(parts, ':');
  }

  lemma ArnPrefix(partition: string, region: string, accountId: string, identifier: string)
    ensures "arn:" <= PrintArn(partition, region, accountId, identifier)
  {
    var rest := Join([partition, "dsql", region, accountId, CLUSTER + identifier], ':');
    var parts := ["arn", partition, "dsql", region, accountId, CLUSTER + identifier];
    assert parts[1..] == [partition, "dsql", region, accountId, CLUSTER + identifier];
    assert PrintArn(partition, region, accountId, identifier) == "arn" + [':'] + rest;
    assert "arn:" == "arn" + [':'];
  }

  lemma ArnParses(partition: string, region: string, accountId: string, identifier: string)
    requires ArnParts(partition, region, accountId, identifier)
    ensures var form := Arn(partition, region, accountId, identifier);
            ParseClusterSelector(form.Print()) == Ok(form.Fields())
  {
    hide IsRegion;
    ArnSplits(partition, region, accountId, identifier);
    ArnPrefix(partition, region, accountId, identifier);
    assert (CLUSTER + identifier)[|CLUSTER|..] == identifier;
  }

  lemma EndpointSplits(identifier: string, region: string)
    requires IsIdentifier(identifier) && IsRegion(region)
    ensures Split(PrintEndpoint(identifier, region), '.') == [identifier, "dsql", region, "on", "aws"]
    ensures '.' in PrintEndpoint(identifier, region) && !("arn:" <= PrintEndpoint(identifier, region))
  {
    var labels := [identifier, "dsql", region, "on", "aws"];
    RegionChars(region, '.');
    PlainChars(identifier, '.');
    SplitJoin(labels, '.');
    assert PrintEndpoint(identifier, region) == identifier + ['.'] + Join(labels[1..], '.');
    assert IsLowerOrDigit(PrintEndpoint(identifier, region)[3]);
    assert PrintEndpoint(identifier, region)[26] == '.';
  }

  lemma EndpointParses(identifier: string, region: string)
    requires IsIdentifier(identifier) && IsRegion(region)
    ensures ParseClusterSelector(PrintEndpoint(identifier, region)) == Ok(Endpoint(identifier, region).Fields())
  {
    hide IsRegion;
    EndpointSplits(identifier, region);
  }

  /** Printing the fields of any well-formed selector parses back to exactly that selector. */
  lemma PrintedParses(form: Form)
    requires form.WellFormed()
    ensures ParseClusterSelector(form.Print()) == Ok(form.Fields())
  {
    match form
    case Bare(identifier) =>
      PlainChars(identifier, '.');
      assert IsLowerOrDigit(identifier[3]);
    case Arn(partition, region, accountId, identifier) => ArnParses(partition, region, accountId, identifier);
    case Endpoint(identifier, region) => EndpointParses(identifier, region);
  }

  /** The form of an accepted input. */
  function FormOf(selector: Selector): Form {
    match (selector.partition, selector.region, selector.accountId)
    case (Some(partition), Some(region), Some(accountId)) => Arn(partition, region, accountId, selector.identifier)
    case (_, Some(region), _) => Endpoint(selector.identifier, region)
    case _ => Bare(selector.identifier)
  }

  lemma ParsedPrints(input: string)
    requires ParseClusterSelector(input).Ok?
    ensures var form := FormOf(ParseClusterSelector(input).selector);
            form.WellFormed() && form.Print() == input
  {
    hide IsRegion;
    if "arn:" <= input {
      var parts := Split(input, ':');
      JoinSplit(input, ':');
      assert parts[5] == CLUSTER + parts[5][|CLUSTER|..];
      assert parts == ["arn", parts[1], "dsql", parts[3], parts[4], CLUSTER + parts[5][|CLUSTER|..]];
    } else if '.' in input {
      var labels := Split(input, '.');
      JoinSplit(input, '.');
      assert labels == [labels[0], "dsql", labels[2], "on", "aws"];
    }
  }

  /**
   * A selector is accepted with certain fields if and only if it is the printed form
   * of well-formed fields; so no text has two forms.
   */
  lemma ParsesIffPrinted(input: string, form: Form)
    ensures form.WellFormed() && form.Print() == input <==>
              && ParseClusterSelector(input).Ok?
              && FormOf(ParseClusterSelector(input).selector) == form
    ensures form.WellFormed() && form.Print() == input ==>
              ParseClusterSelector(input) == Ok(form.Fields())
  {
    hide ParseClusterSelector;
    if form.WellFormed() && form.Print() == input {
      PrintedParses(form);
    }
    if ParseClusterSelector(input).Ok? {
      ParsedPrints(input);
    }
  }

  // ---- Targets. ----

  datatype Target = Target(identifier: string, region: string, endpoint: string, arn: Option<string>)

  datatype RegionCheck = Agrees | MalformedRegion | RegionConflict

  function CheckRegion(selector: Selector, region: string): RegionCheck {
    if !IsRegion(region) then MalformedRegion
    else if selector.region.Some? && selector.region.value != region then RegionConflict
    else Agrees
  }

  function TargetFromSelector(selector: Selector, region: string): Option<Target> {
    if CheckRegion(selector, region) != Agrees then None
    else
      Some(Target(selector.identifier, region,
                  selector.endpoint.GetOr(selector.identifier + ".dsql." + region + ".on.aws"), selector.arn))
  }

  lemma DerivedEndpoint(identifier: string, region: string)
    ensures identifier + ".dsql." + region + ".on.aws" == PrintEndpoint(identifier, region)
  {
    var labels := [identifier, "dsql", region, "on", "aws"];
    assert Join(["on", "aws"], '.') == "on.aws";
    assert labels[3..] == ["on", "aws"] && labels[2..][1..] == labels[3..] && labels[1..][1..] == labels[2..];
    assert Join(labels[2..], '.') == region + ".on.aws";
    assert Join(labels[1..], '.') == "dsql." + region + ".on.aws";
  }

  /** Whatever form named the cluster, the endpoint of its target parses to the same identifier and Region. */
  lemma TargetEndpointParses(input: string, region: string)
    requires ParseClusterSelector(input).Ok?
    ensures var selector := ParseClusterSelector(input).selector;
            var target := TargetFromSelector(selector, region);
            && (target.Some? <==> IsRegion(region) && selector.region.GetOr(region) == region)
            && (target.Some? ==>
                  && target.value.identifier == selector.identifier && target.value.region == region
                  && ParseClusterSelector(target.value.endpoint)
                     == Ok(Endpoint(selector.identifier, region).Fields()))
  {
    hide IsRegion;
    ParsedPrints(input);
    var selector := ParseClusterSelector(input).selector;
    var form := FormOf(selector);
    PrintedParses(form);
    if TargetFromSelector(selector, region).Some? {
      DerivedEndpoint(selector.identifier, region);
      EndpointParses(selector.identifier, region);
    }
  }
}
