/**
 * The start-up check on the command-line flags: a target domain is required,
 * together with exactly one source of URLs (a single URL or a file of URLs).
 */
module Arguments {

  /** The usage condition under which the program prints its usage and exits with status 1. */
  function ArgsRejected(domain: string, url: string, urlFile: string): (rejected: bool)
    ensures !rejected <==> domain != "" && (url != "" <==> urlFile == "")
  {
    domain == "" || (url == "" && urlFile == "") || (url != "" && urlFile != "")
  }
}
