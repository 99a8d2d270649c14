/** src/rast_common/Version.py: the two shapes of the `training_data` table. */
module Version {

  /** `TrainingDataEntityVersion`: `V1` has no switch columns; `Current` has them. */
  datatype TrainingDataEntityVersion = V1 | Current

  /** `SELECTED_VERSION`, the version the repository ships with. The model passes the
      selected version to the operations that depend on it. */
  const SelectedVersion: TrainingDataEntityVersion := Current
}
