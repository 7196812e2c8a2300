TestResult.DisplayName,TestResult.Outcome,TestResult.Duration,TestResult.ResourceCount,RandomSeed
Text.ParseIntToString (correctness),Passed,00:00:00.5233112,545738,0
Text.ParseInt (well-formedness),Passed,00:00:00.2681298,209839,0
