/** What the call extraction writes, the database stores and the flow tracer reads. */
module CallEdges {

  /** One call; the file it stands in is a column of the row that stores it. */
  datatype CallEdge = CallEdge(callerName: string, calleeName: string, line: int, language: string)
}
