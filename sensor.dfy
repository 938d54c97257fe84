/** Value types shared by the streaming pipeline and the statistics store:
    the sensor reading received from the message source and the per-window
    statistic written to the database. Times are integer epoch milliseconds,
    read at UTC; a LocalDateTime interpreted at UTC and its epoch-millisecond
    value determine each other, so no calendar arithmetic is modelled. */
module Sensor {

  /** A value that may be missing: Java's nullable reference. */
  datatype Option<T> = None | Some(value: T)

  /** The result of an operation that may raise an exception: `Fail(e)` stands
      for the exception `e` reaching the caller. */
  datatype Outcome<E> = Pass | Fail(error: E)

  /** One reading (model/SensorData.java). `timestamp` is absent when the JSON
      carried none. The floating-point `sensorValue` is not part of the model. */
  datatype SensorData = SensorData(
    templateId: string,
    deviceId: string,
    timestamp: Option<int>,
    location: string,
    status: string)

  /** One window's count for one device (model/SensorStatistics.java); the
      generated row id is not part of the model. */
  datatype SensorStatistics = SensorStatistics(
    templateId: string,
    deviceId: string,
    dataCount: int,
    windowStart: int,
    windowEnd: int,
    createdTime: int,
    updatedTime: int)
}
