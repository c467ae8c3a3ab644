/** The record the page stores for each successful classification. */
module History {

  /** `interface Classification`: one past classification, newest first in the history. */
  datatype Classification = Classification(
    id: string,
    fileName: string,
    genre: string,
    confidence: int,
    timestamp: int
  )

}
