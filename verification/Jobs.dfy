/** Identity and status of jobs. */
module Jobs {
  datatype JobStatus = STARTING | RUNNING | ERROR | ORPHANED | LOST

  datatype JobId = JobId(name: string, version: string)
}
