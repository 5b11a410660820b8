/** Option and Result, used for Python's `None` and for the exceptions the scripts raise. */
module Wrappers {

  datatype Option<+T> = None | Some(value: T)

  datatype Result<+T, +E> = Ok(value: T) | Err(error: E)
}

/** The exceptions the two scripts can raise, one constructor per cause. */
module Errors {

  datatype Error =
      /** `rel, tokens = line.rstrip().split('(')` did not unpack into two values (ValueError) */
    | ParenUnpack(line: string)
      /** `tmp1, tmp2 = tokens.rstrip(')').split(', ')` did not unpack into two values (ValueError) */
    | TokenUnpack(line: string)
      /** `self.cls_dict[token]` for a token the cluster file does not list (KeyError) */
    | MissingCluster(token: string)
      /** `open(...)` of a file that is not in the directory (FileNotFoundError) */
    | FileNotFound(name: string)
      /** `numerator / denominator` with a zero denominator (ZeroDivisionError) */
    | ZeroDenominator
      /** the clustering library refused its input (for instance fewer than one cluster) */
    | ClusteringRejected
}
