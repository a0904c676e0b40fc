/** Every stage of the pipeline starts with "if the output file exists, log
    and return": an existing output is never rewritten. */
module Stages {

  /** What a stage did: returned early, or produced what it writes. */
  datatype Stage<T> = Skipped | Wrote(output: T)

  /** The gate shared by every stage: `outputExists` is `output_path.exists()`. */
  function Gate<T>(outputExists: bool, output: T): (r: Stage<T>)
    ensures r.Skipped? <==> outputExists
    ensures r.Wrote? ==> r.output == output
  {
    if outputExists then Skipped else Wrote(output)
  }
}
