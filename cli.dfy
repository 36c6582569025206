/**
 * The command line of the batch programs: exactly one argument after the
 * program name, naming one of the two resolution buckets of the data set.
 * Both the OpenCL host and the scalar program start with this check and exit
 * with status 1 on either failure, before any device or file work.
 */
module Cli {

  datatype CliError =
    | Usage              // argc != 2
    | InvalidResolution  // the argument is neither "512" nor "1024"

  datatype Result<T> = Ok(value: T) | Err(error: CliError)

  /** The resolution buckets the programs accept. */
  const Resolutions: set<nat> := {512, 1024}

  predicate IsDigits(s: string) {
    forall k :: 0 <= k < |s| ==> '0' <= s[k] <= '9'
  }

  /**
   * The value of a string of decimal digits, unbounded; std::stoi agrees with
   * it up to INT_MAX, and it is applied here only to "512" and "1024".
   */
  function DecimalValue(s: string): nat
    requires IsDigits(s)
  {
    if |s| == 0 then 0 else DecimalValue(s[..|s| - 1]) * 10 + (s[|s| - 1] as int - '0' as int)
  }

  /** std::stoi reads the two bucket names as the numbers they spell. */
  lemma BucketValues()
    ensures IsDigits("512") && DecimalValue("512") == 512
    ensures IsDigits("1024") && DecimalValue("1024") == 1024
  {
    assert "512"[..2] == "51" && "51"[..1] == "5" && "5"[..0] == "";
    assert "1024"[..3] == "102" && "102"[..2] == "10" && "10"[..1] == "1" && "1"[..0] == "";
  }

  /**
   * argv, program name first.  Accepts exactly the two bucket names and
   * returns the resolution std::stoi reads from the argument.
   */
  function ParseResolution(argv: seq<string>): (r: Result<nat>)
    ensures r.Ok? <==> |argv| == 2 && (argv[1] == "512" || argv[1] == "1024")
    ensures r == Err(Usage) <==> |argv| != 2
    ensures r.Ok? ==> r.value in Resolutions && r.value == (if argv[1] == "512" then 512 else 1024)
  {
    if |argv| != 2 then
      Err(Usage)
    else if argv[1] != "512" && argv[1] != "1024" then
      Err(InvalidResolution)
    else
      BucketValues();
      Ok(DecimalValue(argv[1]))
  }
}
