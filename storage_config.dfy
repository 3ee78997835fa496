/** Storage configurations (storehouse/storage_config.cpp): a closed variant
    with one case per backend kind, built by one static factory per kind. A
    configuration is plain data: the factories touch neither the network nor
    the filesystem, validate nothing and cannot fail. */
module StorageConfigs {

  /** A backend configuration: the bucket and credentials of a Google Cloud
      Storage backend, or the root directory of a local (POSIX) backend. */
  datatype StorageConfig =
    | GcsConfig(certificatesPath: string, key: string, bucket: string)
    | PosixConfig(dataDirectory: string)

  /** `StorageConfig::make_gcs_config`: a GCS configuration whose three fields
      read back as the arguments, as given. */
  function MakeGcsConfig(certificatesPath: string, key: string, bucket: string): (config: StorageConfig)
    ensures config.GcsConfig?
    ensures config.certificatesPath == certificatesPath
    ensures config.key == key
    ensures config.bucket == bucket
  {
    GcsConfig(certificatesPath, key, bucket)
  }

  /** `StorageConfig::make_posix_config`: a POSIX configuration whose data
      directory reads back as the argument, as given. */
  function MakePosixConfig(dataDirectory: string): (config: StorageConfig)
    ensures config.PosixConfig?
    ensures config.dataDirectory == dataDirectory
  {
    PosixConfig(dataDirectory)
  }

  /** Distinct arguments give distinct GCS configurations, and equal ones equal
      configurations. */
  lemma MakeGcsConfigInjective(c1: string, k1: string, b1: string, c2: string, k2: string, b2: string)
    ensures MakeGcsConfig(c1, k1, b1) == MakeGcsConfig(c2, k2, b2) <==> c1 == c2 && k1 == k2 && b1 == b2
  {
  }

  /** Distinct directories give distinct POSIX configurations. */
  lemma MakePosixConfigInjective(d1: string, d2: string)
    ensures MakePosixConfig(d1) == MakePosixConfig(d2) <==> d1 == d2
  {
  }

  /** The kind is fixed by the factory: no GCS configuration is a POSIX one. */
  lemma FactoriesDisjoint(certificatesPath: string, key: string, bucket: string, dataDirectory: string)
    ensures MakeGcsConfig(certificatesPath, key, bucket) != MakePosixConfig(dataDirectory)
  {
  }

  /** The variant is closed: every configuration is what one of the two
      factories makes from its own fields. */
  lemma EveryConfigIsMade(config: StorageConfig)
    ensures config.GcsConfig? ==> config == MakeGcsConfig(config.certificatesPath, config.key, config.bucket)
    ensures config.PosixConfig? ==> config == MakePosixConfig(config.dataDirectory)
  {
  }
}
