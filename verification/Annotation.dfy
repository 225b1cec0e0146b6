/** app/bench/annotation.py: labelled spans of a document. */
module Annotation {
  datatype Category = Mandatory | Contextual

  /** A span is its own key `(start, end, category)` in the graphs of the bench. */
  datatype LabelledSpan = LabelledSpan(start: int, end: int, category: Category)
}
