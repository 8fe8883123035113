# Elastic subcommand argument validation

This project models the validation step that the `elastic` subcommand of the
sx network scanner runs before it starts a scan (the `PreRunE` closure of
`command/elastic.go`). The step works on three process-wide flag variables:

- the protocol flag (`cliHTTPProtoFlag`),
- the JSONL ip/port file flag (`cliIPPortFileFlag`),
- the destination subnet (`cliDstSubnet`).

In order, the step does four things:

1. It resolves an empty protocol flag to `"http"`.
2. It rejects any protocol other than `http` and `https`.
3. It requires either a subnet argument or a non-empty file flag.
4. It parses the first positional argument as a subnet, if there is one.

The flags are the fields of the class `Elastic.ElasticCmd`. Its method `PreRun`
updates them in place and returns Go's `error` as `Option<Error>` (`None` is
nil). `PreRun` is proved equal to the pure function `Elastic.PreRunSpec` over
the flag values (`Elastic.Flags`). The properties of the step are proved about
that function.

The subnet parser `ip.ParseIPNet` is a library call. It is a function-typed
parameter (`SubnetParser`) and is left uninterpreted. It returns Go's pair of a
possibly nil `*net.IPNet` and a possibly nil error. The code assigns both parts
on line 46, so the subnet flag is overwritten even when parsing fails. The model
keeps that pair instead of an either-type.

A parsed subnet (`IPNet`) is an address and a mask as byte sequences. The model
gives these bytes no CIDR meaning.

The step is not all-or-nothing. Flags it has already written stay written
when it fails:

- An empty protocol flag is already set to `"http"` when the missing-target
  error is returned.
- The subnet flag is assigned from a failed parse.

## Model

| member | source | states |
|---|---|---|
| Elastic.IsValidProto | command/elastic.go:37 | defined as the allow-list: exactly "http" and "https" pass; its contract: a valid protocol is never the empty flag, so an unset flag must be resolved first |
| Elastic.Accepts | command/elastic.go:37-47 | defined as a usable protocol, a target, and a first argument the parser accepts; its contract: an accepted configuration passes the protocol check once resolved |
| Elastic.ResolveProto | command/elastic.go:34-36 | a non-empty protocol is kept as given; the resolved protocol is valid exactly when the flag was empty or already `http`/`https` |
| Elastic.PreRunSpec | command/elastic.go:33-48 | the file flag is never changed; the call succeeds iff the protocol is empty or valid, there is a subnet argument or a file, and the parser accepts the first argument when there is one; a protocol that passes the check is stored resolved; a rejected protocol returns the protocol error and leaves every flag as it was; the subnet changes only to the parser's result on the first argument |
| Elastic.ProtoResolution | command/elastic.go:34-39 | an empty protocol becomes `"http"`; `http` and `https` are left unchanged; on success the protocol is `http` or `https` |
| Elastic.InvalidProtoRejected | command/elastic.go:37-42 | any other non-empty protocol gives "invalid HTTP proto flag: http or https required" with the flags unchanged, before the target check, so it wins even with no subnet and no file |
| Elastic.MissingTargetRejected | command/elastic.go:40-42 | with a usable protocol, no arguments and an empty file flag, the call fails with "requires one ip subnet argument or file with ip/port pairs"; only the protocol has been resolved |
| Elastic.FileTargetAccepted | command/elastic.go:43-45 | with a usable protocol, no arguments and a non-empty file flag, the call succeeds and the subnet is untouched |
| Elastic.SubnetArgumentParsed | command/elastic.go:46-47 | with a usable protocol and a subnet argument, the returned error and the new subnet are exactly the parser's on `args[0]` |
| Elastic.OnlyFirstArgumentConsulted | command/elastic.go:43-47 | two argument lists with the same first element give the same outcome and the same flags; extra arguments are ignored |
| Elastic.SecondRunAgrees | command/elastic.go:33-48 | running the validation again on the flags the first run left gives the same flags and the same error (idempotence), for every outcome of the first run |
| Elastic.RepeatedRunsAgree | command/elastic.go:33-48 | any number of validations in a row that share the process-wide flags (`RunRepeatedly`) end with the same flags and error as the first one |
| Elastic.ElasticCmd.PreRun | command/elastic.go:33-48 | the in-place update of the flags and the returned error are exactly those of `PreRunSpec` on the old flags; the file flag is not modified |
| Elastic.ElasticCmd.constructor | command/elastic.go:18 | the flags start with the values given on the command line |

## Left out

- `RunE` (command/elastic.go:49-67) is left out. It involves OS signal handling, a logger over standard output and the scan engine. That is concurrency and I/O.
- `newElasticScanEngine` (command/elastic.go:70-76) is left out. It only wires library constructors together with fixed constants.
- The `init` flag registration (command/elastic.go:20-25) is left out. It is command-line framework plumbing. The constructor takes the flag values that parsing would produce.
- `ip.ParseIPNet` is a parameter with no semantics. The package that defines it is not part of this model.
- `ip.ParseIPNet` is taken to be deterministic and free of effects: `SubnetParser` is a total Dafny function. `SecondRunAgrees` and `RepeatedRunsAgree` rely on this.
- Subnets and errors are compared by value. In Go a second run stores a fresh `*net.IPNet` pointer and `errors.New` makes a fresh error, so Go's `==` on them would not hold. "The same flags and error" in `SecondRunAgrees` and `RepeatedRunsAgree` means equal contents, not the same pointers.
- `cliIPPortFileFlag` and `cliDstSubnet` are declared in files that are not part of this model. Their types are inferred from their use here: a string, and a nullable subnet.
- The options struct, flag parsing and port-range parsing exercised by `command/elastic_test.go` are not defined in the modelled file, so they are not modelled.
