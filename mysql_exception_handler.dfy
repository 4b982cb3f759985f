/**
 * Classification of SQL errors for a MySQL repository: the vendor-neutral
 * X/Open classification, narrowed for duplicate keys to MySQL's own code.
 */
module MySqlExceptionHandlers {

  /** The repository's error types: only the duplicate-key type is singled out here. */
  datatype ErrorType = DuplicateKey | OtherType(name: string)

  datatype SqlException = SqlException(sqlState: string, errorCode: int)

  /** MySQL's vendor code for a duplicate entry on a unique key. */
  const DuplicateEntryCode := 1062

  /** The class of integrity constraint violations, of which duplicate keys are one. */
  const IntegrityConstraintState := "23000"

  /**
   * Whether `ex` is of type `t`, given the X/Open classification `xopen`: a
   * duplicate key additionally needs MySQL's duplicate-entry code, every
   * other type is exactly the X/Open answer.
   */
  function IsErrorType(xopen: (SqlException, ErrorType) -> bool, ex: SqlException, t: ErrorType): (r: bool)
    ensures t != DuplicateKey ==> r == xopen(ex, t)
    ensures t == DuplicateKey ==> (r <==> xopen(ex, t) && ex.errorCode == DuplicateEntryCode)
  {
    var result := xopen(ex, t);
    if t == DuplicateKey && result then DuplicateEntryCode == ex.errorCode else result
  }

  /** The handler only narrows: whatever it reports, the X/Open classification reports too. */
  lemma OnlyNarrows(xopen: (SqlException, ErrorType) -> bool, ex: SqlException, t: ErrorType)
    ensures IsErrorType(xopen, ex, t) ==> xopen(ex, t)
  {
  }

  /**
   * A constraint violation of class 23000 that X/Open counts as a duplicate
   * key is not one for MySQL unless its code is 1062.
   */
  lemma OtherConstraintViolationsAreNotDuplicates(xopen: (SqlException, ErrorType) -> bool, code: int)
    requires code != DuplicateEntryCode
    ensures !IsErrorType(xopen, SqlException(IntegrityConstraintState, code), DuplicateKey)
  {
  }
}
