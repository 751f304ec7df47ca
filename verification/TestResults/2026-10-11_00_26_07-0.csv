TestResult.DisplayName,TestResult.Outcome,TestResult.Duration,TestResult.ResourceCount,RandomSeed
Decimal.ShowTwoDigits (correctness),Failed,00:00:30.2708979,15559512,1
Decimal.ShowTwoDigits (well-formedness),Passed,00:00:00.2676607,21787,1
