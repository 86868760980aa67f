/** The status message that publishers build, over any kind of number. */
module Statuses {
  datatype KeyValue<+V> = KeyValue(key: string, value: V)

  datatype Status<+V> = Status(level: int, name: string, msg: string, hardwareId: string, values: seq<KeyValue<V>>)
}
