// The records shared by the usage, store and api packages.
module UsageTypes {
  datatype UsageState = Active | Idle | Locked

  datatype Activity = Activity(app: string, description: string, idle: bool, idleSeconds: int, locked: bool)

  const NO_ACTIVITY := Activity("", "", false, 0, false)

  /** One hour's increment for one (state, app, description). The usage package
      calls it Bucket and the store UsageDelta; the fields are the same. */
  datatype Bucket = Bucket(hourStart: int, state: UsageState, app: string, description: string, seconds: nat)
}
