/** What the extraction pipeline knows of a metric: its unit and its `value_constraints`. */
module Metrics {
  import opened Wrappers

  datatype Metric = Metric(unit: string, min: Option<real>, max: Option<real>)

  /** The value is a number within the metric's range. */
  predicate PassesConstraints(value: Option<real>, metric: Metric) {
    && value.Some?
    && (metric.min.Some? ==> metric.min.value <= value.value)
    && (metric.max.Some? ==> value.value <= metric.max.value)
  }
}
