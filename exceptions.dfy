/** The business-rule failure thrown by the catalog service (br.com.library.exceptions). */
module Exceptions {

  /** A domain-rule violation, carrying the one message shown to the caller. */
  datatype BusinessException = BusinessException(message: string)
}
