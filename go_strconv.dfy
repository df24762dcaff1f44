/** Go's `strconv.ParseBool`. */
module GoStrconv {
  import opened Wrappers
  import opened GoStrings

  /**
   * `strconv.ParseBool`: the twelve literals it accepts, `None` for the
   * syntax error it returns on any other string. An accepted literal is one
   * of "1", "T", "TRUE", "0", "F", "FALSE" up to case, and its value is read
   * from that upper-cased form; which case variants are accepted is narrower
   * (see `ParseBoolRefuses`).
   */
  function ParseBool(str: string): (r: Option<bool>)
    ensures r.Some? <==>
      str in {"1", "t", "T", "TRUE", "true", "True", "0", "f", "F", "FALSE", "false", "False"}
    ensures r.Some? ==> ToUpper(str) in {"1", "T", "TRUE", "0", "F", "FALSE"}
    ensures r.Some? ==> (r.value <==> ToUpper(str) in {"1", "T", "TRUE"})
    ensures str in {"true", "false"} ==> r.Some?
  {
    UpperOfLiteral(str);
    if str in {"1", "t", "T", "TRUE", "true", "True"} then Some(true)
    else if str in {"0", "f", "F", "FALSE", "false", "False"} then Some(false)
    else None
  }

  /** Upper-casing each accepted literal, one by one. */
  lemma UpperOfLiteral(str: string)
    ensures str in {"1", "t", "T", "TRUE", "true", "True"} ==> ToUpper(str) in {"1", "T", "TRUE"}
    ensures str in {"0", "f", "F", "FALSE", "false", "False"} ==> ToUpper(str) in {"0", "F", "FALSE"}
  {
    if str == "true" || str == "True" {
      assert ToUpper(str) == "TRUE";
    } else if str == "false" || str == "False" {
      assert ToUpper(str) == "FALSE";
    } else if str == "t" || str == "T" {
      assert ToUpper(str) == "T";
    } else if str == "f" || str == "F" {
      assert ToUpper(str) == "F";
    } else if str in {"1", "0", "TRUE", "FALSE"} {
      assert ToUpper(str) == str;
    }
  }

  /** `ParseBool` is not case-insensitive: mixed case and other words are refused. */
  lemma ParseBoolRefuses()
    ensures ParseBool("tRUE") == None
    ensures ParseBool("fALSE") == None
    ensures ParseBool("yes") == None
    ensures ParseBool("") == None
  {
  }
}
