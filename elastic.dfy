/** Argument validation of the `elastic` scan subcommand.

    Before the scan starts, the command resolves and checks the protocol
    flag, insists on a target (a subnet argument or a file of ip/port pairs)
    and parses the subnet argument. The flags are process-wide variables that
    the validation reads and writes in place; they are the fields of
    `ElasticCmd` below. The subnet parser is a library call and is a
    parameter of every member that uses it.
 */
module Elastic {

  datatype Option<+T> = None | Some(value: T)

  /** An error value; only its message is observable. */
  datatype Error = Error(msg: string)

  /** A parsed subnet: an address and its mask, as the networking library
      hands them over. Nothing here depends on what the bytes mean. */
  datatype IPNet = IPNet(ip: seq<bv8>, mask: seq<bv8>)

  /** What the subnet parser returns: a possibly nil subnet and a possibly
      nil error, both of which the caller stores. */
  datatype ParseOutcome = ParseOutcome(net: Option<IPNet>, err: Option<Error>)

  /** The library's subnet parser, left uninterpreted. */
  type SubnetParser = string -> ParseOutcome

  const DefaultProto: string := "http"
  const InvalidProtoError: Error := Error("invalid HTTP proto flag: http or https required")
  const MissingTargetError: Error := Error("requires one ip subnet argument or file with ip/port pairs")

  /** The protocols the elastic scanner accepts. The empty flag is not one
      of them, which is why it is resolved to the default first. */
  predicate IsValidProto(proto: string)
    ensures IsValidProto(proto) ==> proto != ""
  {
    proto == "http" || proto == "https"
  }

  /** The flag values the validation reads and writes. */
  datatype Flags = Flags(proto: string, ipPortFile: string, dstSubnet: Option<IPNet>)

  /** The flag values after one validation, and the error it returns (None is Go's nil). */
  datatype Run = Run(flags: Flags, err: Option<Error>)

  /** An empty protocol flag stands for the default; any other value is kept as given. */
  function ResolveProto(proto: string): (r: string)
    ensures proto != "" ==> r == proto
    ensures IsValidProto(r) <==> proto == "" || IsValidProto(proto)
  {
    if |proto| == 0 then DefaultProto else proto
  }

  /** When validation succeeds: a usable protocol (or none, which means the
      default), a target, and a subnet argument the parser accepts. */
  predicate Accepts(f: Flags, args: seq<string>, parseIPNet: SubnetParser)
    // an accepted configuration passes the protocol check once resolved
    ensures Accepts(f, args, parseIPNet) ==> IsValidProto(ResolveProto(f.proto))
  {
    && (f.proto == "" || IsValidProto(f.proto))
    && (|args| > 0 || f.ipPortFile != "")
    && (|args| > 0 ==> parseIPNet(args[0]).err == None)
  }

  /** One validation of the flags against the positional arguments. */
  function PreRunSpec(f: Flags, args: seq<string>, parseIPNet: SubnetParser): (r: Run)
    // the file flag is only read
    ensures r.flags.ipPortFile == f.ipPortFile
    // the call succeeds exactly when the configuration is acceptable
    ensures r.err == None <==> Accepts(f, args, parseIPNet)
    // a protocol that passes the check is stored resolved, whatever happens next
    ensures IsValidProto(ResolveProto(f.proto)) ==> r.flags.proto == ResolveProto(f.proto)
    // a rejected protocol leaves every flag as it was
    ensures !IsValidProto(ResolveProto(f.proto)) ==> r == Run(f, Some(InvalidProtoError))
    // the subnet changes only when a subnet argument is parsed
    ensures r.flags.dstSubnet != f.dstSubnet ==> |args| > 0 && r.flags.dstSubnet == parseIPNet(args[0]).net
  {
    var proto := ResolveProto(f.proto);
    if !IsValidProto(proto) then
      Run(f, Some(InvalidProtoError))
    else if |args| == 0 && |f.ipPortFile| == 0 then
      Run(f.(proto := proto), Some(MissingTargetError))
    else if |args| == 0 then
      Run(f.(proto := proto), None)
    else
      var out := parseIPNet(args[0]);
      Run(Flags(proto, f.ipPortFile, out.net), out.err)
  }

  /** The protocol flag: empty becomes the default, http and https are kept. */
  lemma ProtoResolution(f: Flags, args: seq<string>, parseIPNet: SubnetParser)
    ensures f.proto == "" ==> PreRunSpec(f, args, parseIPNet).flags.proto == DefaultProto
    ensures IsValidProto(f.proto) ==> PreRunSpec(f, args, parseIPNet).flags.proto == f.proto
    ensures PreRunSpec(f, args, parseIPNet).err == None ==> IsValidProto(PreRunSpec(f, args, parseIPNet).flags.proto)
  {
  }

  /** A protocol outside the allow-list is reported first, even when no target is given. */
  lemma InvalidProtoRejected(f: Flags, args: seq<string>, parseIPNet: SubnetParser)
    requires f.proto != "" && !IsValidProto(f.proto)
    ensures PreRunSpec(f, args, parseIPNet) == Run(f, Some(InvalidProtoError))
  {
  }

  /** With a usable protocol, no subnet argument and no file, the call fails. */
  lemma MissingTargetRejected(f: Flags, parseIPNet: SubnetParser)
    requires f.proto == "" || IsValidProto(f.proto)
    requires f.ipPortFile == ""
    ensures PreRunSpec(f, [], parseIPNet) == Run(f.(proto := ResolveProto(f.proto)), Some(MissingTargetError))
  {
  }

  /** With a usable protocol, no subnet argument and a file, the call succeeds and the subnet is untouched. */
  lemma FileTargetAccepted(f: Flags, parseIPNet: SubnetParser)
    requires f.proto == "" || IsValidProto(f.proto)
    requires f.ipPortFile != ""
    ensures PreRunSpec(f, [], parseIPNet) == Run(f.(proto := ResolveProto(f.proto)), None)
  {
  }

  /** With a usable protocol and a subnet argument, the outcome and the new
      subnet are exactly the parser's on the first argument. */
  lemma SubnetArgumentParsed(f: Flags, args: seq<string>, parseIPNet: SubnetParser)
    requires f.proto == "" || IsValidProto(f.proto)
    requires |args| > 0
    ensures PreRunSpec(f, args, parseIPNet).err == parseIPNet(args[0]).err
    ensures PreRunSpec(f, args, parseIPNet).flags.dstSubnet == parseIPNet(args[0]).net
  {
  }

  /** Arguments after the first are never looked at. */
  lemma OnlyFirstArgumentConsulted(f: Flags, args: seq<string>, args': seq<string>, parseIPNet: SubnetParser)
    requires |args| > 0 && |args'| > 0 && args[0] == args'[0]
    ensures PreRunSpec(f, args, parseIPNet) == PreRunSpec(f, args', parseIPNet)
  {
  }

  /** Validating a second time, from the flags the first validation left,
      changes nothing and gives the same error. */
  lemma SecondRunAgrees(f: Flags, args: seq<string>, parseIPNet: SubnetParser)
    ensures var first := PreRunSpec(f, args, parseIPNet);
            PreRunSpec(first.flags, args, parseIPNet) == first
  {
  }

  /** The command validated `n` times in one process, the flags persisting
      from one validation to the next; the result of the last one. */
  function RunRepeatedly(f: Flags, args: seq<string>, parseIPNet: SubnetParser, n: nat): Run
    requires n > 0
    decreases n
  {
    var first := PreRunSpec(f, args, parseIPNet);
    if n == 1 then first else RunRepeatedly(first.flags, args, parseIPNet, n - 1)
  }

  /** However often the validation runs, it ends where the first run ended. */
  lemma {:induction false} RepeatedRunsAgree(f: Flags, args: seq<string>, parseIPNet: SubnetParser, n: nat)
    requires n > 0
    ensures RunRepeatedly(f, args, parseIPNet, n) == PreRunSpec(f, args, parseIPNet)
    decreases n
  {
    if n > 1 {
      var first := PreRunSpec(f, args, parseIPNet);
      SecondRunAgrees(f, args, parseIPNet);
      RepeatedRunsAgree(first.flags, args, parseIPNet, n - 1);
    }
  }

  /** The process-wide flags of the elastic subcommand. */
  class ElasticCmd {
    var protoFlag: string
    var ipPortFile: string
    var dstSubnet: Option<IPNet>

    function State(): Flags
      reads this
    {
      Flags(protoFlag, ipPortFile, dstSubnet)
    }

    /** The flags as the command line left them. */
    constructor (proto: string, file: string, subnet: Option<IPNet>)
      ensures State() == Flags(proto, file, subnet)
    {
      protoFlag := proto;
      ipPortFile := file;
      dstSubnet := subnet;
    }

    /** The validation step that runs before the scan. */
    method PreRun(args: seq<string>, parseIPNet: SubnetParser) returns (err: Option<Error>)
      modifies this`protoFlag, this`dstSubnet
      ensures Run(State(), err) == PreRunSpec(old(State()), args, parseIPNet)
      ensures ipPortFile == old(ipPortFile)
    {
      if |protoFlag| == 0 {
        protoFlag := DefaultProto;
      }
      if protoFlag != "http" && protoFlag != "https" {
        return Some(InvalidProtoError);
      }
      if |args| == 0 && |ipPortFile| == 0 {
        return Some(MissingTargetError);
      }
      if |args| == 0 {
        return None;
      }
      var out := parseIPNet(args[0]);
      dstSubnet := out.net;
      err := out.err;
    }
  }
}
