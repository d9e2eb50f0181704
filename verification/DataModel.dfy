/** The lifecycle state of a data session (runtime/canx/data/model.py). */
module DataModel {
  datatype SessionState = Active | Completed | Failed | Interrupted
}
