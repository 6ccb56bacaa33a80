/**
 * The application settings value as the account and settings services see it.
 *
 * The settings structure is produced by a migration chain (src/services/settings/migrations)
 * that is not part of this model; accounts and the settings service only store, compare and
 * hand such values around, so a versioned record of named values stands in for it.
 */
module Settings {

  datatype AppSettings = AppSettings(version: nat, values: map<string, string>)
}
